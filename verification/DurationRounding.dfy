/** `Duration::round`: rounding that depends on magnitude. Durations are nanoseconds. */
module DurationRounding {
  import opened Common
  import opened DurationText

  const TWO_64: nat := U64_MAX + 1

  /** Milliseconds rounded to tens, before the cast to u64. */
  function RoundedMillis(n: nat): nat {
    (n / MILLISECOND + 5) / 10 * 10
  }

  function Round(n: nat): nat {
    if n > SECOND then RoundedMillis(n) % TWO_64 * MILLISECOND
    else if n > MILLISECOND then (n + 500_000) / MILLISECOND * MILLISECOND
    else if n > MICROSECOND then (n + 500) / MICROSECOND * MICROSECOND
    else n
  }

  /** The cast loses nothing. */
  predicate Fits(n: nat) {
    RoundedMillis(n) < TWO_64
  }

  function HalfUnit(n: nat): int {
    if n > SECOND then 5_000_000 else if n > MILLISECOND then 500_000 else if n > MICROSECOND then 500 else 0
  }

  lemma SmallFits(n: nat)
    requires n <= SECOND
    ensures Fits(n)
  {
  }

  lemma FitsRemainder(n: nat)
    requires Fits(n)
    ensures RoundedMillis(n) % TWO_64 == RoundedMillis(n)
  {
  }

  /** Truncating to milliseconds before rounding to tens is direct half-up rounding to 10 ms. */
  lemma RoundIsHalfUp(n: nat)
    requires n > SECOND && Fits(n)
    ensures Round(n) == (n + 5_000_000) / 10_000_000 * 10_000_000
  {
    FitsRemainder(n);
    var ms, low := n / MILLISECOND, n % MILLISECOND;
    var tens, digit := (ms + 5) / 10, (ms + 5) % 10;
    assert n + 5_000_000 == 10_000_000 * tens + (digit * MILLISECOND + low);
    DivAtLeast(n + 5_000_000, 10_000_000, tens);
    DivAtLeast(n + 5_000_000, 10_000_000, tens + 1);
  }

  /** The unit of each magnitude: 10 ms above a second, 1 ms above a millisecond, 1 us above a
      microsecond, otherwise nothing is rounded. */
  function RoundingUnit(n: nat): nat {
    if n > 1_000_000_000 then 10_000_000 else if n > 1_000_000 then 1_000_000 else if n > 1_000 then 1_000 else 1
  }

  /** In every branch the result is the multiple of the unit nearest to the duration, the greater one
      of two. */
  lemma RoundsHalfUp(n: nat)
    requires Fits(n)
    ensures var u, r := RoundingUnit(n), Round(n); r % u == 0 && 2 * (r - n) <= u && 2 * (n - r) < u
  {
    if n > SECOND {
      RoundIsHalfUp(n);
      HalfUp(n, 10_000_000, 5_000_000);
    } else if n > MILLISECOND {
      HalfUp(n, 1_000_000, 500_000);
    } else if n > MICROSECOND {
      HalfUp(n, 1_000, 500);
    }
  }

  lemma HalfUp(n: nat, u: nat, half: nat)
    requires (u, half) in {(10_000_000, 5_000_000), (1_000_000, 500_000), (1_000, 500)}
    ensures var r := (n + half) / u * u; r % u == 0 && 2 * (r - n) <= u && 2 * (n - r) < u
  {
    var q := (n + half) / u;
    assert n + half == q * u + (n + half) % u;
    RemainderUnique(q * u, u, q, 0);
  }

  /** Rounding errs by at most half its unit exactly when the cast loses nothing. */
  lemma RoundErrorIff(n: nat)
    ensures -HalfUnit(n) <= Round(n) - n <= HalfUnit(n) <==> Fits(n)
  {
    if n <= SECOND {
      SmallFits(n);
    } else {
      var ms, r := n / MILLISECOND, RoundedMillis(n);
      assert ms - 4 <= r <= ms + 5;
      if Fits(n) {
        RoundIsHalfUp(n);
      } else {
        assert r % TWO_64 <= r - TWO_64;
      }
    }
  }

  lemma MillisExact(w: nat)
    ensures w * MILLISECOND / MILLISECOND == w
  {
  }

  lemma MillisStay(w: nat)
    requires w <= 1000
    ensures Round(w * MILLISECOND) == w * MILLISECOND
  {
  }

  lemma TensIff(w: nat)
    requires 1000 < w < TWO_64
    ensures (w + 5) / 10 * 10 % TWO_64 == w <==> w % 10 == 0
  {
    var r := (w + 5) / 10 * 10;
    assert r % 10 == 0 && w - 4 <= r <= w + 5;
    if r < TWO_64 {
      RemainderUnique(r, TWO_64, 0, r);
    } else {
      RemainderUnique(r, TWO_64, 1, r - TWO_64);
    }
  }

  /** Which whole numbers of milliseconds rounding leaves alone. */
  lemma MillisFixedIff(w: nat)
    requires w < TWO_64
    ensures Round(w * MILLISECOND) == w * MILLISECOND <==> w <= 1000 || w % 10 == 0
  {
    if w <= 1000 {
      MillisStay(w);
    } else {
      hide RoundedMillis;
      TensIff(w);
      assert RoundedMillis(w * MILLISECOND) == (w + 5) / 10 * 10 by { MillisRounded(w); }
    }
  }

  lemma MillisRounded(w: nat)
    ensures RoundedMillis(w * MILLISECOND) == (w + 5) / 10 * 10
  {
    MillisExact(w);
  }

  lemma RoundSmallIdempotent(n: nat)
    requires n <= SECOND
    ensures Round(Round(n)) == Round(n)
  {
    if n > MILLISECOND { MillisFixedIff((n + 500_000) / MILLISECOND); }
  }

  /** Rounding again changes nothing exactly when the first rounding left at most a second or a
      multiple of 10 ms, which past the u64 range depends on where the cast lands. */
  lemma RoundIdempotentIff(n: nat)
    ensures Round(Round(n)) == Round(n) <==>
              n <= SECOND || RoundedMillis(n) % TWO_64 <= 1000 || RoundedMillis(n) % TWO_64 % 10 == 0
  {
    if n <= SECOND {
      RoundSmallIdempotent(n);
    } else {
      MillisFixedIff(RoundedMillis(n) % TWO_64);
    }
  }

  /** In particular wherever the cast loses nothing. */
  lemma RoundIdempotent(n: nat)
    requires Fits(n)
    ensures Round(Round(n)) == Round(n)
  {
    FitsRemainder(n);
    RoundIdempotentIff(n);
  }

  /** Wrapped to 1004 ms, which rounding again takes to 1000 ms. */
  lemma RoundNotIdempotent() returns (n: nat)
    ensures Round(n) == 1004 * MILLISECOND && Round(Round(n)) == SECOND
  {
    var w := U64_MAX + 1005;
    n := w * MILLISECOND;
    MillisExact(w);
    assert RoundedMillis(n) == w && w % TWO_64 == 1004;
    MillisExact(1004);
  }

  lemma FitsMonotone(a: nat, b: nat)
    requires a <= b && Fits(b)
    ensures Fits(a)
  {
  }

  lemma RoundAcrossSecond(a: nat, b: nat)
    requires a <= SECOND < b && Fits(b)
    ensures Round(a) <= SECOND <= Round(b)
  {
    FitsRemainder(b);
  }

  lemma RoundOrdered(a: nat, b: nat)
    requires a <= b && Fits(b)
    ensures Fits(a) && Round(a) <= Round(b)
  {
    FitsMonotone(a, b);
    if a > SECOND {
      FitsRemainder(a);
      FitsRemainder(b);
      assert RoundedMillis(a) <= RoundedMillis(b);
    } else if b > SECOND {
      RoundAcrossSecond(a, b);
    } else {
      RoundSmallMonotone(a, b);
    }
  }

  lemma RoundSmallMonotone(a: nat, b: nat)
    requires a <= b <= SECOND
    ensures Round(a) <= Round(b)
  {
  }

  /** The cast wraps: the shortest duration it does that to rounds to 4 ms. */
  lemma RoundWraps()
    ensures Round(U64_MAX * MILLISECOND) == 4 * MILLISECOND && !Fits(U64_MAX * MILLISECOND)
    ensures forall n: nat | !Fits(n) :: n >= U64_MAX * MILLISECOND
  {
    forall n: nat | !Fits(n) ensures n >= U64_MAX * MILLISECOND {
      assert n / MILLISECOND >= U64_MAX;
    }
  }

  ghost predicate OrderedUpTo(m: nat) {
    forall a: nat, b: nat | a <= b <= m :: Round(a) <= Round(b)
  }

  /** Rounding keeps order up to a duration exactly when the cast loses nothing there: two seconds
      and the shortest duration that wraps are out of order. */
  lemma RoundMonotoneIff(m: nat)
    ensures OrderedUpTo(m) <==> Fits(m)
  {
    if Fits(m) {
      forall a: nat, b: nat | a <= b <= m ensures Round(a) <= Round(b) {
        FitsMonotone(b, m);
        RoundOrdered(a, b);
      }
    } else {
      RoundWraps();
      RoundOutOfOrder();
      assert 2 * SECOND <= U64_MAX * MILLISECOND <= m;
    }
  }

  lemma RoundOutOfOrder()
    ensures 2 * SECOND <= U64_MAX * MILLISECOND && Round(2 * SECOND) > Round(U64_MAX * MILLISECOND)
  {
    RoundWraps();
  }
}
