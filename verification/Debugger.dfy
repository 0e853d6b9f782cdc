/** The bounded debug buffer (crates/consensus/src/debugger.rs): a FIFO queue of sniffed instances
    limited by their total encoded size. */
module Debugger {
  import opened Common

  /** usize on a 64-bit target. */
  const USIZE_MAX: nat := U64_MAX

  /** An instance and its `encoded_len`. */
  datatype Instance = Instance(id: nat, size: nat)

  type Queue = seq<Instance>

  function Sum(q: Queue): nat {
    if q == [] then 0 else q[0].size + Sum(q[1..])
  }

  lemma {:induction false} SumAppend(a: Queue, b: Queue)
    ensures Sum(a + b) == Sum(a) + Sum(b)
  {
    if a == [] {
      assert a + b == b;
    } else {
      assert (a + b)[1..] == a[1..] + b;
      SumAppend(a[1..], b);
    }
  }

  // ---------------------------------------------------------------------------------------------
  // The state and one addition
  // ---------------------------------------------------------------------------------------------

  datatype State = State(totalSize: nat, instances: Queue)

  /** `pop_front` until the tracked size fits; the subtraction saturates. */
  function PopWhileOver(s: State, limit: nat): State
    decreases |s.instances|
  {
    if s.totalSize <= limit then s
    else if s.instances == [] then State(0, [])
    else PopWhileOver(State(if s.totalSize >= s.instances[0].size then s.totalSize - s.instances[0].size else 0,
                            s.instances[1..]), limit)
  }

  /** `add_instance`: the addition saturates. */
  function Add(s: State, limit: nat, x: Instance): State {
    PopWhileOver(State(if s.totalSize + x.size <= USIZE_MAX then s.totalSize + x.size else USIZE_MAX,
                       s.instances + [x]), limit)
  }

  class DebugBuffer {
    const limit: nat
    var totalSize: nat
    var instances: Queue

    ghost function View(): State
      reads this
    {
      State(totalSize, instances)
    }

    /** The tracked size never exceeds the true one, which is what keeps a pop from an empty queue
        out of reach. */
    ghost predicate Valid()
      reads this
    {
      totalSize <= Sum(instances)
    }

    constructor (limit: nat)
      ensures this.limit == limit && View() == State(0, []) && Valid()
    {
      this.limit := limit;
      totalSize, instances := 0, [];
    }

    method AddInstance(x: Instance)
      requires Valid()
      modifies this
      ensures Valid() && View() == Add(old(View()), limit, x) && totalSize <= limit
    {
      SumAppend(instances, [x]);
      totalSize := if totalSize + x.size <= USIZE_MAX then totalSize + x.size else USIZE_MAX;
      instances := instances + [x];
      while totalSize > limit
        invariant Valid() && PopWhileOver(View(), limit) == Add(old(View()), limit, x)
        decreases |instances|
      {
        if instances == [] {
          assert false;
        }
        var dropped := instances[0];
        instances := instances[1..];
        totalSize := if totalSize >= dropped.size then totalSize - dropped.size else 0;
      }
    }
  }

  // ---------------------------------------------------------------------------------------------
  // Histories
  // ---------------------------------------------------------------------------------------------

  function Run(limit: nat, history: Queue): State {
    if history == [] then State(0, [])
    else Add(Run(limit, history[..|history| - 1]), limit, history[|history| - 1])
  }

  /** The longest suffix whose sizes add up to at most the limit, by its own definition. */
  ghost predicate IsLongestFit(q: Queue, history: Queue, limit: nat) {
    exists k: nat :: k <= |history| && LongestFitAt(k, q, history, limit)
  }

  ghost predicate LongestFitAt(k: nat, q: Queue, history: Queue, limit: nat)
    requires k <= |history|
  {
    q == history[k..] && Sum(q) <= limit && forall j | 0 <= j < k :: Sum(history[j..]) > limit
  }

  lemma {:induction false} SuffixSum(history: Queue, j: nat, k: nat)
    requires j <= k <= |history|
    ensures Sum(history[j..]) >= Sum(history[k..])
  {
    assert history[j..] == history[j..k] + history[k..];
    SumAppend(history[j..k], history[k..]);
  }

  /** While the tracked size is the true one, popping finds the longest fitting suffix. */
  lemma {:induction false} PopFindsLongest(s: State, limit: nat, history: Queue, k: nat)
    requires k <= |history| && s.instances == history[k..] && s.totalSize == Sum(s.instances)
    requires forall j | 0 <= j < k :: Sum(history[j..]) > limit
    ensures var r := PopWhileOver(s, limit);
            r.totalSize == Sum(r.instances) && IsLongestFit(r.instances, history, limit)
    decreases |s.instances|
  {
    if s.totalSize <= limit {
      assert LongestFitAt(k, s.instances, history, limit);
    } else {
      assert s.instances[1..] == history[k + 1..] && history[k..] == s.instances;
      PopFindsLongest(State(Sum(s.instances[1..]), s.instances[1..]), limit, history, k + 1);
    }
  }

  /** The addition does not overflow, or the buffer is small enough that it would be emptied. */
  predicate SafeAdd(s: State, limit: nat, x: Instance) {
    s.totalSize + x.size <= USIZE_MAX || USIZE_MAX - s.totalSize > limit
  }

  ghost predicate Exact(s: State, limit: nat, history: Queue) {
    s.totalSize == Sum(s.instances) && IsLongestFit(s.instances, history, limit)
  }

  /** With the tracked size `lag` below the true one, popping goes on while what is tracked stays
      over the limit; nothing remains once even the last instance does not bring it under. */
  lemma {:induction false} PopEmpties(s: State, limit: nat, front: nat)
    requires s.instances != [] && front == Sum(s.instances[..|s.instances| - 1])
    requires s.totalSize >= front && s.totalSize - front > limit && s.totalSize <= Sum(s.instances)
    ensures PopWhileOver(s, limit) == State(0, [])
    decreases |s.instances|
  {
    var q := s.instances;
    SumAppend(q[..|q| - 1], [q[|q| - 1]]);
    assert q == q[..|q| - 1] + [q[|q| - 1]];
    assert Sum([q[|q| - 1]]) == q[|q| - 1].size + Sum([q[|q| - 1]][1..]);
    if |q| == 1 {
      assert q[1..] == [] && q[..0] == [];
    } else {
      assert q[..|q| - 1][1..] == q[1..][..|q| - 2];
      PopEmpties(State(s.totalSize - q[0].size, q[1..]), limit, front - q[0].size);
    }
  }

  lemma LongestOfAppended(s: State, limit: nat, history: Queue, x: Instance) returns (k: nat)
    requires Exact(s, limit, history)
    ensures k <= |history| && (s.instances + [x]) == (history + [x])[k..]
    ensures Sum(s.instances + [x]) == s.totalSize + x.size
    ensures forall j | 0 <= j < k :: Sum((history + [x])[j..]) > limit
  {
    k :| k <= |history| && LongestFitAt(k, s.instances, history, limit);
    SumAppend(s.instances, [x]);
    assert Sum([x]) == x.size + Sum([x][1..]);
    forall j | 0 <= j < k ensures Sum((history + [x])[j..]) > limit {
      assert (history + [x])[j..] == history[j..] + [x];
      SumAppend(history[j..], [x]);
    }
  }

  /** One addition keeps the buffer exact precisely when it is safe. */
  lemma AddExactIff(s: State, limit: nat, history: Queue, x: Instance)
    requires Exact(s, limit, history) && limit <= USIZE_MAX
    ensures Exact(Add(s, limit, x), limit, history + [x]) <==> SafeAdd(s, limit, x)
  {
    var k := LongestOfAppended(s, limit, history, x);
    var q := s.instances + [x];
    if s.totalSize + x.size <= USIZE_MAX {
      PopFindsLongest(State(s.totalSize + x.size, q), limit, history + [x], k);
    } else if SafeAdd(s, limit, x) {
      assert q[..|q| - 1] == s.instances;
      PopEmpties(State(USIZE_MAX, q), limit, s.totalSize);
      NothingFits(history, x, limit);
    } else {
      PopLeavesLag(State(USIZE_MAX, q), limit, s.totalSize);
    }
  }

  lemma NothingFits(history: Queue, x: Instance, limit: nat)
    requires x.size > limit
    ensures IsLongestFit([], history + [x], limit)
  {
    var h := history + [x];
    forall j | 0 <= j < |h| ensures Sum(h[j..]) > limit {
      SuffixSum(h, j, |history|);
      assert h[|history|..] == [x] && Sum([x]) == x.size + Sum([x][1..]);
    }
    assert LongestFitAt(|h|, [], h, limit);
  }

  /** Otherwise the newest instance stays with a tracked size below the true one. */
  lemma {:induction false} PopLeavesLag(s: State, limit: nat, front: nat)
    requires s.instances != [] && front == Sum(s.instances[..|s.instances| - 1])
    requires front <= s.totalSize < Sum(s.instances) && s.totalSize - front <= limit
    ensures var r := PopWhileOver(s, limit); r.totalSize < Sum(r.instances)
    decreases |s.instances|
  {
    var q := s.instances;
    if s.totalSize > limit {
      assert |q| > 1;
      assert q[..|q| - 1][1..] == q[1..][..|q| - 2];
      PopLeavesLag(State(s.totalSize - q[0].size, q[1..]), limit, front - q[0].size);
    }
  }

  lemma StartsExact(limit: nat)
    ensures Exact(Run(limit, []), limit, [])
  {
    assert LongestFitAt(0, [], [], limit);
  }

  /** Every addition of the history was safe. */
  predicate SafeRun(limit: nat, history: Queue) {
    history == [] ||
    (SafeRun(limit, history[..|history| - 1]) &&
     SafeAdd(Run(limit, history[..|history| - 1]), limit, history[|history| - 1]))
  }

  /** The buffer has been exact all along: the longest suffix that fits, with its true size. */
  ghost predicate AlwaysExact(limit: nat, history: Queue) {
    forall k | 0 <= k <= |history| :: Exact(Run(limit, history[..k]), limit, history[..k])
  }

  lemma AlwaysExactInit(limit: nat, history: Queue)
    requires history != []
    ensures AlwaysExact(limit, history) <==>
              AlwaysExact(limit, history[..|history| - 1]) && Exact(Run(limit, history), limit, history)
  {
    hide Exact, Run;
    var init := history[..|history| - 1];
    assert history[..|history|] == history;
    assert forall k | 0 <= k <= |init| :: init[..k] == history[..k];
    if AlwaysExact(limit, history) {
      forall k | 0 <= k <= |init| ensures Exact(Run(limit, init[..k]), limit, init[..k]) {
        assert Exact(Run(limit, history[..k]), limit, history[..k]);
      }
    }
    if AlwaysExact(limit, init) && Exact(Run(limit, history), limit, history) {
      forall k | 0 <= k <= |history| ensures Exact(Run(limit, history[..k]), limit, history[..k]) {
        if k <= |init| { assert Exact(Run(limit, init[..k]), limit, init[..k]); }
      }
    }
  }

  /** For any limit and history: exact all along precisely when every addition was safe. */
  lemma {:induction false} BufferExactIff(limit: nat, history: Queue)
    requires limit <= USIZE_MAX
    ensures SafeRun(limit, history) <==> AlwaysExact(limit, history)
  {
    hide Add, Exact, SafeAdd, AlwaysExact;
    if history == [] {
      StartsExact(limit);
      AlwaysExactEmpty(limit);
    } else {
      var init, x := history[..|history| - 1], history[|history| - 1];
      BufferExactIff(limit, init);
      AlwaysExactInit(limit, history);
      if AlwaysExact(limit, init) {
        AlwaysExactNow(limit, init);
        assert history == init + [x];
        AddExactIff(Run(limit, init), limit, init, x);
      }
    }
  }

  lemma AlwaysExactEmpty(limit: nat)
    requires Exact(Run(limit, []), limit, [])
    ensures AlwaysExact(limit, [])
  {
  }

  lemma AlwaysExactNow(limit: nat, history: Queue)
    requires AlwaysExact(limit, history)
    ensures Exact(Run(limit, history), limit, history)
  {
    assert history[..|history|] == history;
  }

  lemma {:induction false} SmallLimitSafe(limit: nat, history: Queue)
    requires 2 * limit < USIZE_MAX
    ensures SafeRun(limit, history)
  {
    if history != [] {
      var init := history[..|history| - 1];
      SmallLimitSafe(limit, init);
      BufferExactIff(limit, init);
      AlwaysExactNow(limit, init);
    }
  }

  /** From half of usize on, sizes `limit` and what then overflows by one leave the buffer or its
      tracked size wrong. */
  lemma LargeLimitFails(limit: nat, a: Instance, b: Instance)
    requires limit <= USIZE_MAX <= 2 * limit && a.size == limit && b.size == USIZE_MAX - limit + 1
    ensures !Exact(Run(limit, [a, b]), limit, [a, b])
  {
    hide Exact, Add;
    assert [a, b][..1] == [a] && [a][..0] == [] && [] + [a] == [a] && [a] + [b] == [a, b];
    StartsExact(limit);
    AddExactIff(Run(limit, []), limit, [], a);
    FirstAdd(limit, a);
    AddExactIff(Run(limit, [a]), limit, [a], b);
    assert Run(limit, [a, b]) == Add(Run(limit, [a]), limit, b);
  }

  lemma FirstAdd(limit: nat, a: Instance)
    requires a.size == limit <= USIZE_MAX
    ensures Run(limit, [a]) == Add(Run(limit, []), limit, a) == State(limit, [a])
  {
    assert [a][..0] == [];
  }

  /** After every history the buffer is the longest suffix that fits, with its true size, exactly
      for limits below half of usize; no assumption on the sizes is needed. */
  lemma BufferIsLongestSuffixIff(limit: nat)
    requires limit <= USIZE_MAX
    ensures 2 * limit < USIZE_MAX <==> forall history :: Exact(Run(limit, history), limit, history)
  {
    hide Exact, Run;
    if 2 * limit < USIZE_MAX {
      forall history ensures Exact(Run(limit, history), limit, history) {
        SmallLimitSafe(limit, history);
        BufferExactIff(limit, history);
        AlwaysExactNow(limit, history);
      }
    } else {
      var a, b := Instance(0, limit), Instance(1, USIZE_MAX - limit + 1);
      LargeLimitFails(limit, a, b);
    }
  }
}
