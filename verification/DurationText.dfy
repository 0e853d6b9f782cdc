/** Decimal text of durations, on UTF-8 bytes (crates/cli/src/duration.rs). */
module DurationText {
  import opened Common

  const MICROSECOND: nat := 1_000
  const MILLISECOND: nat := 1_000_000
  const SECOND: nat := 1_000_000_000
  const MINUTE: nat := 60_000_000_000
  const HOUR: nat := 3_600_000_000_000

  /** Go's largest `time.Duration`. */
  const GO_MAX: nat := I64_MAX

  const PLUS: Byte := 43
  const MINUS: Byte := 45
  const DOT: Byte := 46
  const ZERO: Byte := 48

  const NS: seq<Byte> := [110, 115]
  const US: seq<Byte> := [117, 115]
  const MICRO_SIGN_S: seq<Byte> := [0xC2, 0xB5, 115]
  const GREEK_MU_S: seq<Byte> := [0xCE, 0xBC, 115]
  const MS: seq<Byte> := [109, 115]
  const S: seq<Byte> := [115]
  const M: seq<Byte> := [109]
  const H: seq<Byte> := [104]

  lemma Assoc(a: seq<Byte>, b: seq<Byte>, c: seq<Byte>)
    ensures (a + b) + c == a + (b + c)
  {
  }

  predicate IsDigit(b: Byte) {
    48 <= b <= 57
  }

  predicate AllDigits(s: seq<Byte>) {
    forall i | 0 <= i < |s| :: IsDigit(s[i])
  }

  function Pow10(k: nat): (p: nat)
    ensures p >= 1
  {
    if k == 0 then 1 else 10 * Pow10(k - 1)
  }

  function Digits(v: nat): (s: seq<Byte>)
    ensures |s| >= 1 && AllDigits(s)
  {
    if v < 10 then [ZERO + v] else Digits(v / 10) + [ZERO + v % 10]
  }

  /** The digits still to print; nothing for zero. */
  function Leading(v: nat): seq<Byte> {
    if v == 0 then [] else Leading(v / 10) + [ZERO + v % 10]
  }

  lemma {:induction false} LeadingIsDigits(v: nat)
    requires v > 0
    ensures Leading(v) == Digits(v)
  {
    if v >= 10 { LeadingIsDigits(v / 10); }
  }

  lemma {:induction false} DigitsLength(v: nat, k: nat)
    requires k >= 1 && v < Pow10(k)
    ensures |Digits(v)| <= k
  {
    if v >= 10 {
      assert Pow10(k) == 10 * Pow10(k - 1);
      assert k >= 2;
      DigitsLength(v / 10, k - 1);
    }
  }

  /** The number left of the last `prec` decimals. */
  function Dropped(v: nat, prec: nat): nat {
    if prec == 0 then v else Dropped(v / 10, prec - 1)
  }

  lemma {:induction false} DroppedIsDiv(v: nat, prec: nat)
    ensures v == Dropped(v, prec) * Pow10(prec) + v % Pow10(prec)
  {
    if prec > 0 {
      DroppedIsDiv(v / 10, prec - 1);
      OneMore(v, Dropped(v / 10, prec - 1), Pow10(prec - 1), (v / 10) % Pow10(prec - 1));
    }
  }

  lemma OneMore(v: nat, q: nat, p: nat, r: nat)
    requires p >= 1 && r < p && v / 10 == q * p + r
    ensures v == q * (10 * p) + v % (10 * p)
  {
    var low := 10 * r + v % 10;
    TimesTen(q, p);
    assert v == 10 * (v / 10) + v % 10;
    assert v == q * (10 * p) + low;
    RemainderUnique(v, 10 * p, q, low);
  }

  lemma TimesTen(a: nat, b: nat)
    ensures a * (10 * b) == 10 * (a * b)
  {
  }

  lemma RemainderUnique(v: nat, d: nat, q: nat, r: nat)
    requires d > 0 && r < d && v == q * d + r
    ensures v / d == q && v % d == r
  {
    DivAtLeast(v, d, q);
    DivAtLeast(v, d, q + 1);
    assert (q + 1) * d == q * d + d;
  }

  /** The last `prec` decimals, without trailing zeros unless `print` is already on. */
  function FracTail(v: nat, prec: nat, print_: bool): (s: seq<Byte>)
    ensures |s| <= prec && AllDigits(s)
  {
    if prec == 0 then [] else
    var on := print_ || v % 10 != 0;
    FracTail(v / 10, prec - 1, on) + (if on then [ZERO + v % 10] else [])
  }

  predicate FracPrints(v: nat, prec: nat, print_: bool) {
    if prec == 0 then print_ else FracPrints(v / 10, prec - 1, print_ || v % 10 != 0)
  }

  function FracText(v: nat, prec: nat): (s: seq<Byte>)
    ensures |s| <= prec + 1
  {
    if FracPrints(v, prec, false) then [DOT] + FracTail(v, prec, false) else []
  }

  /** The text of a duration of `u` nanoseconds. */
  function FormatText(u: nat): seq<Byte> {
    if u == 0 then [ZERO] + S
    else if u < MICROSECOND then Digits(u) + NS
    else if u < MILLISECOND then Digits(Dropped(u, 3)) + FracText(u, 3) + MICRO_SIGN_S
    else if u < SECOND then Digits(Dropped(u, 6)) + FracText(u, 6) + MS
    else
      var secs := Dropped(u, 9);
      var tail := Digits(secs % 60) + FracText(u, 9) + S;
      var mins := secs / 60;
      if mins == 0 then tail
      else
        var tail := Digits(mins % 60) + M + tail;
        var hours := mins / 60;
        if hours == 0 then tail else Digits(hours) + H + tail
  }

  lemma SmallDigits(v: nat)
    ensures v < 10 ==> |Digits(v)| == 1
    ensures v < 100 ==> |Digits(v)| <= 2
    ensures v < 1_000 ==> |Digits(v)| <= 3
    ensures v < 10_000_000 ==> |Digits(v)| <= 7
  {
    if v < 100 { DigitsLength(v, 2); }
    if v < 1_000 { DigitsLength(v, 3); }
    if v < 10_000_000 {
      assert Pow10(7) == 10_000_000;
      DigitsLength(v, 7);
    }
  }

  lemma DroppedBounds(u: nat)
    ensures Dropped(u, 3) == u / 1_000 && Dropped(u, 6) == u / 1_000_000 && Dropped(u, 9) == u / 1_000_000_000
  {
    assert Pow10(3) == 1_000;
    assert Pow10(6) == 1_000 * Pow10(3) == 1_000_000;
    assert Pow10(9) == 1_000 * Pow10(6) == 1_000_000_000;
    DroppedIsDiv(u, 3);
    DroppedIsDiv(u, 6);
    DroppedIsDiv(u, 9);
    RemainderUnique(u, Pow10(3), Dropped(u, 3), u % Pow10(3));
    RemainderUnique(u, Pow10(6), Dropped(u, 6), u % Pow10(6));
    RemainderUnique(u, Pow10(9), Dropped(u, 9), u % Pow10(9));
  }

  /** Every u64 fits in 24 bytes. */
  lemma FormatLength(u: nat)
    requires u <= U64_MAX
    ensures 2 <= |FormatText(u)| <= 24
  {
    DroppedBounds(u);
    SmallDigits(u);
    SmallDigits(u / 1_000);
    SmallDigits(u / 1_000_000);
    var secs := u / 1_000_000_000;
    SmallDigits(secs % 60);
    SmallDigits(secs / 60 % 60);
    SmallDigits(secs / 60 / 60);
  }
}
