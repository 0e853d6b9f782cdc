/** Printing and parsing durations: the round trip, and parsing as a sum over segments. */
module DurationLaws {
  import opened Common
  import opened DurationText
  import opened DurationParse

  // ---------------------------------------------------------------------------------------------
  // Digits and their value
  // ---------------------------------------------------------------------------------------------

  lemma {:induction false} ValueSnoc(x: nat, s: seq<Byte>, d: Byte)
    requires AllDigits(s) && IsDigit(d)
    ensures Value(x, s + [d]) == 10 * Value(x, s) + (d - ZERO)
    decreases s
  {
    if s == [] {
      assert s + [d] == [d] && [d][1..] == [];
    } else {
      assert (s + [d])[1..] == s[1..] + [d];
      ValueSnoc(10 * x + (s[0] - ZERO), s[1..], d);
    }
  }

  lemma {:induction false} ValueOfDigits(v: nat)
    ensures Value(0, Digits(v)) == v
  {
    if v < 10 {
      assert Digits(v)[1..] == [];
    } else {
      ValueOfDigits(v / 10);
      ValueSnoc(0, Digits(v / 10), ZERO + v % 10);
    }
  }

  lemma {:induction false} ValueGrows(x: nat, s: seq<Byte>)
    requires AllDigits(s)
    ensures x <= Value(x, s)
    decreases s
  {
    if s != [] { ValueGrows(10 * x + (s[0] - ZERO), s[1..]); }
  }

  /** Scanning digits that stay within bounds moves past them and yields their value. */
  lemma {:induction false} ScanIntDigits(x: nat, a: seq<Byte>, b: seq<Byte>)
    requires AllDigits(a) && Value(x, a) <= GO_MAX && (b == [] || !IsDigit(b[0]))
    ensures ScanInt(x, a + b) == Some((Value(x, a), b))
    decreases a
  {
    if a == [] {
      assert a + b == b;
    } else {
      assert (a + b)[1..] == a[1..] + b;
      ValueGrows(10 * x + (a[0] - ZERO), a[1..]);
      ScanIntDigits(10 * x + (a[0] - ZERO), a[1..], b);
    }
  }

  lemma {:induction false} ScanFractionDigits(x: nat, k: nat, a: seq<Byte>, b: seq<Byte>)
    requires AllDigits(a) && Value(x, a) <= GO_MAX && (b == [] || !IsDigit(b[0]))
    ensures ScanFraction(x, Pow10(k), false, a + b) == Fraction(Value(x, a), Pow10(k + |a|), b)
    decreases a
  {
    if a == [] {
      assert a + b == b;
    } else {
      assert (a + b)[1..] == a[1..] + b;
      ValueGrows(10 * x + (a[0] - ZERO), a[1..]);
      ScanFractionDigits(10 * x + (a[0] - ZERO), k + 1, a[1..], b);
    }
  }

  lemma FractionOf(a: seq<Byte>, b: seq<Byte>)
    requires AllDigits(a) && Value(0, a) <= GO_MAX && (b == [] || !IsDigit(b[0]))
    ensures ScanFraction(0, 1, false, a + b) == Fraction(Value(0, a), Pow10(|a|), b)
  {
    ScanFractionDigits(0, 0, a, b);
    assert Pow10(0) == 1;
  }

  // ---------------------------------------------------------------------------------------------
  // Printed fractions
  // ---------------------------------------------------------------------------------------------

  /** With printing on, exactly `prec` digits appear and their value is the remainder. */
  lemma {:induction false} FracTailOn(v: nat, prec: nat)
    ensures |FracTail(v, prec, true)| == prec && Value(0, FracTail(v, prec, true)) == v % Pow10(prec)
    ensures FracPrints(v, prec, true)
  {
    if prec > 0 {
      FracTailOn(v / 10, prec - 1);
      ValueSnoc(0, FracTail(v / 10, prec - 1, true), ZERO + v % 10);
      RemainderStep(v, prec);
    }
  }

  lemma RemainderStep(v: nat, prec: nat)
    requires prec > 0
    ensures v % Pow10(prec) == 10 * ((v / 10) % Pow10(prec - 1)) + v % 10
  {
    var p := Pow10(prec - 1);
    var q, r := (v / 10) / p, (v / 10) % p;
    assert v / 10 == q * p + r;
    assert q * (10 * p) == 10 * (q * p);
    RemainderUnique(v, 10 * p, q, 10 * r + v % 10);
  }

  /** The printed decimals, scaled back to `prec` places, are the remainder; they are printed
      exactly when it is not zero. */
  lemma {:induction false} FracTailValue(v: nat, prec: nat)
    ensures var t := FracTail(v, prec, false);
            && Value(0, t) * Pow10(prec - |t|) == v % Pow10(prec)
            && (FracPrints(v, prec, false) <==> v % Pow10(prec) != 0) && (t != [] <==> v % Pow10(prec) != 0)
  {
    if prec > 0 {
      RemainderStep(v, prec);
      if v % 10 != 0 {
        FracTailOn(v, prec);
        FracTailOn(v / 10, prec - 1);
        assert FracTail(v, prec, false) == FracTail(v, prec, true);
        assert Pow10(0) == 1;
      } else {
        FracTailValue(v / 10, prec - 1);
        var t := FracTail(v / 10, prec - 1, false);
        assert FracTail(v, prec, false) == t;
        TimesTen(Value(0, t), Pow10(prec - 1 - |t|));
      }
    }
  }

  /** Printed decimals never end in a zero. */
  lemma {:induction false} FracTailTrimmed(v: nat, prec: nat)
    ensures var t := FracTail(v, prec, false); t != [] ==> t[|t| - 1] != ZERO
  {
    if prec > 0 && v % 10 == 0 {
      FracTailTrimmed(v / 10, prec - 1);
      assert FracTail(v, prec, false) == FracTail(v / 10, prec - 1, false);
    }
  }

  lemma {:induction false} Pow10Splits(a: nat, b: nat)
    ensures Pow10(a + b) == Pow10(a) * Pow10(b)
  {
    if a > 0 { Pow10Splits(a - 1, b); }
  }

  // ---------------------------------------------------------------------------------------------
  // One printed segment
  // ---------------------------------------------------------------------------------------------

  /** A unit the parser knows, written without digits or points. */
  predicate IsUnit(unit: seq<Byte>) {
    UnitScale(unit).Some?
  }

  lemma UnitLengthOf(unit: seq<Byte>, rest: seq<Byte>)
    requires IsUnit(unit) && (rest == [] || StartsNumber(rest))
    ensures unit != [] && UnitLength(unit + rest) == |unit| && !StartsNumber(unit + rest)
  {
    assert 1 <= |unit| <= 3 && forall i | 0 <= i < |unit| :: !StartsNumber([unit[i]]);
    assert !StartsNumber([unit[0]]) && (unit + rest)[0] == unit[0];
    UnitLengthSkips(unit, rest);
  }

  lemma {:induction false} UnitLengthSkips(unit: seq<Byte>, rest: seq<Byte>)
    requires (forall i | 0 <= i < |unit| :: !StartsNumber([unit[i]])) && (rest == [] || StartsNumber(rest))
    ensures UnitLength(unit + rest) == |unit|
  {
    if unit == [] {
      assert unit + rest == rest;
    } else {
      assert (unit + rest)[1..] == unit[1..] + rest;
      assert !StartsNumber([unit[0]]);
      UnitLengthSkips(unit[1..], rest);
    }
  }

  function Decimals(digits: seq<Byte>): seq<Byte> {
    if digits == [] then [] else [DOT] + digits
  }

  lemma NumberOf(v: nat, decimals: seq<Byte>, tail: seq<Byte>)
    requires v <= GO_MAX && AllDigits(decimals) && Value(0, decimals) <= GO_MAX
    requires tail != [] && !StartsNumber(tail)
    ensures ScanNumber(Digits(v) + (Decimals(decimals) + tail)) ==
              Some(Number(v, Value(0, decimals), Pow10(|decimals|), true, tail))
  {
    hide ScanNumber, Digits, Value, Pow10;
    if decimals == [] {
      NoDecimals();
      assert Decimals(decimals) + tail == tail;
      NumberOfWhole(v, tail);
    } else {
      var after := Decimals(decimals) + tail;
      assert after[1..] == decimals + tail;
      NumberOfPoint(v, after, decimals, tail);
    }
  }

  lemma NumberOfWhole(v: nat, tail: seq<Byte>)
    requires v <= GO_MAX && tail != [] && !StartsNumber(tail)
    ensures ScanNumber(Digits(v) + tail) == Some(Number(v, 0, 1, true, tail))
  {
    hide ScanInt, ScanNumber, Digits, Value;
    ValueOfDigits(v);
    ScanIntDigits(0, Digits(v), tail);
    NumberWhole(Digits(v) + tail, v, tail);
  }

  lemma NoDecimals()
    ensures Value(0, []) == 0 && Pow10(0) == 1
  {
  }

  lemma NumberOfPoint(v: nat, after: seq<Byte>, decimals: seq<Byte>, tail: seq<Byte>)
    requires v <= GO_MAX && AllDigits(decimals) && Value(0, decimals) <= GO_MAX
    requires tail != [] && !StartsNumber(tail) && after != [] && after[0] == DOT && after[1..] == decimals + tail
    ensures ScanNumber(Digits(v) + after) == Some(Number(v, Value(0, decimals), Pow10(|decimals|), true, tail))
  {
    hide ScanInt, ScanFraction, ScanNumber, Digits, Value, Pow10;
    ValueOfDigits(v);
    ScanIntDigits(0, Digits(v), after);
    FractionOf(decimals, tail);
    NumberPoint(Digits(v) + after, v, after, Fraction(Value(0, decimals), Pow10(|decimals|), tail));
  }

  lemma NumberWhole(s: seq<Byte>, v: nat, rest: seq<Byte>)
    requires ScanInt(0, s) == Some((v, rest)) && (rest == [] || rest[0] != DOT) && |rest| < |s|
    ensures ScanNumber(s) == Some(Number(v, 0, 1, true, rest))
  {
    hide ScanInt, ScanFraction;
  }

  lemma NumberPoint(s: seq<Byte>, v: nat, rest: seq<Byte>, f: Fraction)
    requires ScanInt(0, s) == Some((v, rest)) && rest != [] && rest[0] == DOT && |rest| < |s|
    requires ScanFraction(0, 1, false, rest[1..]) == f
    ensures ScanNumber(s) == Some(Number(v, f.digits, f.scale, true, f.rest))
  {
    hide ScanInt, ScanFraction;
  }

  lemma SegmentByParts(step: FracStep, s: seq<Byte>, n: Number, unit: seq<Byte>, rest: seq<Byte>)
    requires StartsNumber(s) && ScanNumber(s) == Some(n) && n.digits && n.rest == unit + rest
    requires unit != [] && UnitLength(n.rest) == |unit| && UnitScale(unit).Some?
    ensures var nanos := SegmentNanos(step, n, UnitScale(unit).value);
            Segment(step, s) == if nanos > GO_MAX then Err(InvalidDuration) else Ok((nanos, rest))
  {
    assert n.rest[..|unit|] == unit && n.rest[|unit|..] == rest;
  }

  /** A written segment: whole part, optional decimals, unit. */
  lemma SegmentOf(step: FracStep, v: nat, decimals: seq<Byte>, unit: seq<Byte>, rest: seq<Byte>)
    requires v <= GO_MAX && AllDigits(decimals) && Value(0, decimals) <= GO_MAX
    requires IsUnit(unit) && (rest == [] || StartsNumber(rest))
    ensures var nanos := SegmentNanos(step, Number(v, Value(0, decimals), Pow10(|decimals|), true, unit + rest),
                                      UnitScale(unit).value);
            Segment(step, Digits(v) + (Decimals(decimals) + (unit + rest))) ==
              if nanos > GO_MAX then Err(InvalidDuration) else Ok((nanos, rest))
  {
    var n := Number(v, Value(0, decimals), Pow10(|decimals|), true, unit + rest);
    UnitLengthOf(unit, rest);
    NumberOf(v, decimals, unit + rest);
    SegmentByParts(step, Digits(v) + (Decimals(decimals) + (unit + rest)), n, unit, rest);
  }

  /** Parsing past a whole-number segment adds its nanoseconds, or fails past the maximum. */
  lemma ParsePastWhole(step: FracStep, total: nat, v: nat, unit: seq<Byte>, rest: seq<Byte>)
    requires v <= GO_MAX && IsUnit(unit) && (rest == [] || StartsNumber(rest))
    ensures var nanos := v * UnitScale(unit).value;
            ParseFrom(step, total, Digits(v) + unit + rest) ==
              if total + nanos > GO_MAX then Err(InvalidDuration) else ParseFrom(step, total + nanos, rest)
  {
    assert Digits(v) + unit + rest == Digits(v) + (Decimals([]) + (unit + rest));
    SegmentOf(step, v, [], unit, rest);
  }

  /** The three units that carry `prec` printed decimals. */
  predicate DecimalUnit(unit: seq<Byte>, prec: nat) {
    (unit == MICRO_SIGN_S && prec == 3) || (unit == MS && prec == 6) || (unit == S && prec == 9)
  }

  lemma DecimalUnitScale(unit: seq<Byte>, prec: nat)
    requires DecimalUnit(unit, prec)
    ensures UnitScale(unit) == Some(Pow10(prec)) && Pow10(prec) <= 1_000_000_000
  {
    assert Pow10(3) == 1_000;
    assert Pow10(6) == 1_000 * Pow10(3) && Pow10(9) == 1_000 * Pow10(6);
  }

  /** Printed decimals denote the remainder exactly, whatever the float step does elsewhere. */
  lemma DecimalNanos(step: FracStep, v: nat, unit: seq<Byte>, prec: nat)
    requires ExactOnIntegers(step) && DecimalUnit(unit, prec)
    ensures var t := FracTail(v, prec, false);
            && Value(0, t) <= GO_MAX
            && (Value(0, t) > 0 <==> v % Pow10(prec) != 0)
            && (Value(0, t) > 0 ==> step(Value(0, t), Pow10(prec), Pow10(|t|)) == v % Pow10(prec))
  {
    hide FracTail, FracPrints, Value, Pow10;
    var t := FracTail(v, prec, false);
    var x, q := Value(0, t), Pow10(prec - |t|);
    FracTailValue(v, prec);
    DecimalUnitScale(unit, prec);
    Pow10Splits(prec - |t|, |t|);
    ProductBounds(x, q);
    ProductBounds(Pow10(|t|), q);
    assert step(x, q * Pow10(|t|), Pow10(|t|)) == x * q;
  }

  lemma ProductBounds(a: nat, b: nat)
    requires b >= 1
    ensures a <= a * b && (a >= 1 ==> b <= a * b)
  {
    if a >= 1 { assert (a - 1) * (b - 1) >= 0; }
  }

  lemma ParseDecimal(step: FracStep, total: nat, v: nat, u: nat, unit: seq<Byte>, prec: nat)
    requires ExactOnIntegers(step) && DecimalUnit(unit, prec) && v <= GO_MAX
    ensures var nanos := v * Pow10(prec) + u % Pow10(prec);
            ParseFrom(step, total, Digits(v) + FracText(u, prec) + unit) ==
              if total + nanos > GO_MAX then Err(InvalidDuration) else Ok(total + nanos)
  {
    hide Segment, Digits, FracTail, FracPrints, Value, Pow10;
    var t := FracTail(u, prec, false);
    DecimalUnitScale(unit, prec);
    DecimalNanos(step, u, unit, prec);
    FracTailValue(u, prec);
    SegmentOf(step, v, t, unit, []);
    assert unit + [] == unit && FracText(u, prec) == Decimals(t);
    Assoc(Digits(v), FracText(u, prec), unit);
  }

  // ---------------------------------------------------------------------------------------------
  // Round trip
  // ---------------------------------------------------------------------------------------------

  function Judged(u: nat): Result<nat, ParseError> {
    if u > GO_MAX then Err(InvalidDuration) else Ok(u)
  }

  lemma ParseSmall(step: FracStep, u: nat)
    requires ExactOnIntegers(step) && 0 < u < SECOND
    ensures ParseFrom(step, 0, FormatText(u)) == Ok(u)
  {
    hide ParseFrom, Digits, FracText, Pow10, Dropped, ExactOnIntegers;
    DroppedBounds(u);
    if u < MICROSECOND {
      ParsePastWhole(step, 0, u, NS, []);
      assert FormatText(u) == Digits(u) + NS == Digits(u) + NS + [];
      ParseEmpty(step, u);
    } else if u < MILLISECOND {
      assert FormatText(u) == Digits(Dropped(u, 3)) + FracText(u, 3) + MICRO_SIGN_S;
      ParseDecimal(step, 0, Dropped(u, 3), u, MICRO_SIGN_S, 3);
      DroppedIsDiv(u, 3);
    } else {
      assert FormatText(u) == Digits(Dropped(u, 6)) + FracText(u, 6) + MS;
      ParseDecimal(step, 0, Dropped(u, 6), u, MS, 6);
      DroppedIsDiv(u, 6);
    }
  }

  lemma ParseEmpty(step: FracStep, total: nat)
    ensures ParseFrom(step, total, []) == Ok(total)
  {
  }

  /** Seconds and fraction, as printed last. */
  function SecondsText(u: nat): (s: seq<Byte>)
    ensures StartsNumber(s)
  {
    Digits(Dropped(u, 9) % 60) + FracText(u, 9) + S
  }

  lemma ParseLarge(step: FracStep, u: nat)
    requires ExactOnIntegers(step) && SECOND <= u <= U64_MAX
    ensures ParseFrom(step, 0, FormatText(u)) == Judged(u)
  {
    hide ParseFrom, Digits, FracText, Pow10, Dropped, ExactOnIntegers;
    DroppedBounds(u);
    DroppedIsDiv(u, 9);
    assert Pow10(9) == SECOND by { DecimalUnitScale(S, 9); }
    var secs := Dropped(u, 9);
    var mins := secs / 60;
    var hours := mins / 60;
    var tail := SecondsText(u);
    var ofHours, ofMins, ofSecs := hours * HOUR, (mins % 60) * MINUTE, (secs % 60) * SECOND + u % SECOND;
    assert u == ofHours + ofMins + ofSecs;
    var minsText := Digits(mins % 60) + M + tail;
    assert StartsNumber(minsText) by { assert minsText[0] == Digits(mins % 60)[0]; }
    if hours > 0 {
      ParsePastWhole(step, 0, hours, H, minsText);
      if ofHours <= GO_MAX {
        ParsePastWhole(step, ofHours, mins % 60, M, tail);
        if ofHours + ofMins <= GO_MAX { ParseDecimal(step, ofHours + ofMins, secs % 60, u, S, 9); }
      }
    } else if mins > 0 {
      ParsePastWhole(step, 0, mins % 60, M, tail);
      ParseDecimal(step, ofMins, secs % 60, u, S, 9);
    } else {
      ParseDecimal(step, 0, secs % 60, u, S, 9);
    }
  }

  lemma FormatShape(u: nat)
    ensures var text := FormatText(u); |text| >= 2 && IsDigit(text[0]) && text[|text| - 1] == S[0]
  {
  }

  /** Printing then parsing gives back every duration up to Go's maximum, and is rejected above it,
      through both entry points. */
  lemma PrintParse(step: FracStep, u: nat)
    requires ExactOnIntegers(step) && u <= U64_MAX
    ensures ParseGoDuration(step, FormatText(u)) == Judged(u)
    ensures FromStr(step, FormatText(u)) == Judged(u)
  {
    var text := FormatText(u);
    FormatShape(u);
    assert !AllDigits(text) by { assert !IsDigit(text[|text| - 1]); }
    if u == 0 {
      ParsePastWhole(step, 0, 0, S, []);
      assert Digits(0) + S + [] == text;
    } else if u < SECOND {
      ParseSmall(step, u);
    } else {
      ParseLarge(step, u);
    }
  }

  /** What follows the hours in a text that has them. */
  function PastHours(u: nat): (s: seq<Byte>) {
    Digits(Dropped(u, 9) / 60 % 60) + M + SecondsText(u)
  }

  /** With hours, the text splits into them and a rest that parses to the remainder. */
  lemma HoursSplit(step: FracStep, u: nat)
    requires ExactOnIntegers(step) && HOUR <= u <= U64_MAX
    ensures ScanInt(0, FormatText(u)) == Some((u / HOUR, H + PastHours(u)))
    ensures ParseFrom(step, 0, PastHours(u)) == Ok(u % HOUR)
  {
    hide ParseFrom, ScanInt, Digits, FracText, Pow10, Dropped, Value, ExactOnIntegers;
    DroppedBounds(u);
    DroppedIsDiv(u, 9);
    assert Pow10(9) == SECOND by { DecimalUnitScale(S, 9); }
    var secs := Dropped(u, 9);
    var mins, hours := secs / 60, secs / 60 / 60;
    assert hours == u / HOUR && u % HOUR == (mins % 60) * MINUTE + (secs % 60) * SECOND + u % SECOND;
    ParsePastWhole(step, 0, mins % 60, M, SecondsText(u));
    ParseDecimal(step, (mins % 60) * MINUTE, secs % 60, u, S, 9);
    ValueOfDigits(hours);
    ScanIntDigits(0, Digits(hours), H + PastHours(u));
    Assoc(Digits(hours), H, PastHours(u));
  }

  lemma ExactStep(x: nat, q: nat, p: nat)
    requires p > 0
    ensures x * (q * p) / p == x * q
  {
    Associates(x, q, p);
    RemainderUnique(x * (q * p), p, x * q, 0);
  }

  lemma Associates(x: nat, q: nat, p: nat)
    ensures x * (q * p) == (x * q) * p
  {
  }

  /** Different durations print differently, over the whole range the printer takes. */
  lemma PrintInjective(u: nat, v: nat)
    requires u <= U64_MAX && v <= U64_MAX && FormatText(u) == FormatText(v)
    ensures u == v
  {
    hide FormatText, ParseGoDuration, FromStr, ParseFrom, ScanInt, PastHours;
    var step: FracStep := (x, scale, p) => if p == 0 then 0 else x * scale / p;
    forall x: nat, q: nat, p: nat | p > 0 ensures step(x, q * p, p) == x * q { ExactStep(x, q, p); }
    assert ExactOnIntegers(step);
    PrintParse(step, u);
    PrintParse(step, v);
    if u > GO_MAX && v > GO_MAX {
      HoursSplit(step, u);
      HoursSplit(step, v);
      assert PastHours(u) == (H + PastHours(u))[|H|..];
      assert PastHours(v) == (H + PastHours(v))[|H|..];
    }
  }

  /** Bare digits are read as nanoseconds, over the whole u64 range. */
  lemma NanosecondsParse(step: FracStep, n: nat)
    ensures FromStr(step, Digits(n)) == if n <= U64_MAX then Ok(n) else Err(InvalidDuration)
  {
    ValueOfDigits(n);
    if n > U64_MAX { ScanIntOverflow(0, Digits(n)); }
  }

  lemma {:induction false} ScanIntOverflow(x: nat, s: seq<Byte>)
    requires AllDigits(s) && x <= GO_MAX < Value(x, s)
    ensures ScanInt(x, s) == None
    decreases s
  {
    if 10 * x + (s[0] - ZERO) <= GO_MAX { ScanIntOverflow(10 * x + (s[0] - ZERO), s[1..]); }
  }

  // ---------------------------------------------------------------------------------------------
  // Additivity
  // ---------------------------------------------------------------------------------------------

  lemma {:induction false} ScanIntExtends(x: nat, a: seq<Byte>, b: seq<Byte>)
    requires ScanInt(x, a).Some? && ScanInt(x, a).value.1 != []
    ensures ScanInt(x, a + b) == Some((ScanInt(x, a).value.0, ScanInt(x, a).value.1 + b))
    decreases a
  {
    assert (a + b)[0] == a[0] && (a + b)[1..] == a[1..] + b;
    if IsDigit(a[0]) { ScanIntExtends(10 * x + (a[0] - ZERO), a[1..], b); }
  }

  lemma {:induction false} ScanFractionExtends(x: nat, scale: nat, overflow: bool, a: seq<Byte>, b: seq<Byte>)
    requires ScanFraction(x, scale, overflow, a).rest != []
    ensures var f := ScanFraction(x, scale, overflow, a);
            ScanFraction(x, scale, overflow, a + b) == f.(rest := f.rest + b)
    decreases a
  {
    assert (a + b)[0] == a[0] && (a + b)[1..] == a[1..] + b;
    if IsDigit(a[0]) {
      var y := 10 * x + (a[0] - ZERO);
      if overflow || y > GO_MAX {
        ScanFractionExtends(x, scale, true, a[1..], b);
      } else {
        ScanFractionExtends(y, 10 * scale, false, a[1..], b);
      }
    }
  }

  lemma {:induction false} UnitLengthExtends(a: seq<Byte>, b: seq<Byte>)
    requires StartsNumber(b)
    ensures UnitLength(a + b) == UnitLength(a)
  {
    if a == [] {
      assert a + b == b;
    } else if !StartsNumber(a) {
      assert (a + b)[0] == a[0] && (a + b)[1..] == a[1..] + b;
      UnitLengthExtends(a[1..], b);
    }
  }

  lemma NumberExtends(a: seq<Byte>, b: seq<Byte>)
    requires ScanNumber(a).Some? && ScanNumber(a).value.rest != []
    ensures var n := ScanNumber(a).value; ScanNumber(a + b) == Some(n.(rest := n.rest + b))
  {
    var rest := ScanInt(0, a).value.1;
    ScanIntExtends(0, a, b);
    if rest[0] == DOT {
      assert (rest + b)[1..] == rest[1..] + b;
      ScanFractionExtends(0, 1, false, rest[1..], b);
    }
  }

  lemma SegmentExtends(step: FracStep, a: seq<Byte>, b: seq<Byte>)
    requires Segment(step, a).Ok? && StartsNumber(b)
    ensures Segment(step, a + b) == Ok((Segment(step, a).value.0, Segment(step, a).value.1 + b))
  {
    hide ScanNumber, UnitLength, UnitScale;
    var n := ScanNumber(a).value;
    var length := UnitLength(n.rest);
    NumberExtends(a, b);
    UnitLengthExtends(n.rest, b);
    assert (n.rest + b)[..length] == n.rest[..length] && (n.rest + b)[length..] == n.rest[length..] + b;
  }

  lemma {:induction false} ParseConcat(step: FracStep, total: nat, a: seq<Byte>, b: seq<Byte>)
    requires ParseFrom(step, total, a).Ok? && StartsNumber(b)
    ensures ParseFrom(step, total, a + b) == ParseFrom(step, ParseFrom(step, total, a).value, b)
    decreases |a|
  {
    hide Segment;
    if a == [] {
      assert a + b == b;
    } else {
      SegmentExtends(step, a, b);
      var (nanos, rest) := Segment(step, a).value;
      ParseConcat(step, total + nanos, rest, b);
    }
  }

  /** Starting from a larger total shifts the result. */
  lemma {:induction false} ParseShift(step: FracStep, total: nat, by_: nat, s: seq<Byte>)
    requires ParseFrom(step, total, s).Ok? && total <= GO_MAX
    ensures var v := ParseFrom(step, total, s).value;
            && total <= v <= GO_MAX
            && (total + by_ <= GO_MAX ==> ParseFrom(step, total + by_, s) == Judged(v + by_))
    decreases |s|
  {
    hide Segment;
    if s != [] {
      var (nanos, rest) := Segment(step, s).value;
      ParseShift(step, total + nanos, by_, rest);
    }
  }

  /** No accepted duration exceeds Go's maximum. */
  lemma AcceptedInRange(step: FracStep, s: seq<Byte>)
    requires ParseGoDuration(step, s).Ok?
    ensures ParseGoDuration(step, s).value <= GO_MAX
  {
    var rest := if Signed(s) then s[1..] else s;
    if rest != [ZERO] { ParseShift(step, 0, 0, rest); }
  }

  lemma ZeroPrefix(step: FracStep, b: seq<Byte>)
    requires Segment(step, b).Ok?
    ensures Segment(step, [ZERO] + b) == Segment(step, b)
  {
    assert ([ZERO] + b)[1..] == b;
    assert ScanInt(0, [ZERO] + b) == ScanInt(0, b);
  }

  /** Parsing the concatenation of two accepted unsigned strings, the second not the bare "0",
      gives the sum of their values, or fails when that exceeds Go's maximum. */
  lemma ParseAdditive(step: FracStep, a: seq<Byte>, b: seq<Byte>)
    requires !Signed(a) && !Signed(b) && b != [ZERO]
    requires ParseGoDuration(step, a).Ok? && ParseGoDuration(step, b).Ok?
    ensures ParseGoDuration(step, a + b) ==
              Judged(ParseGoDuration(step, a).value + ParseGoDuration(step, b).value)
  {
    hide Segment;
    assert (a + b)[0] == a[0] && |a + b| > 1;
    assert ParseGoDuration(step, a + b) == ParseFrom(step, 0, a + b);
    if a == [ZERO] {
      ZeroPrefix(step, b);
      ParseShift(step, 0, 0, b);
    } else {
      var va := ParseGoDuration(step, a).value;
      ParseConcat(step, 0, a, b);
      ParseShift(step, 0, 0, a);
      ParseShift(step, 0, va, b);
    }
  }

  /** The bare "0" is the one exception: after anything it lacks a unit. */
  lemma BareZeroNeedsUnit(step: FracStep, a: seq<Byte>)
    requires !Signed(a) && ParseGoDuration(step, a).Ok?
    ensures ParseGoDuration(step, a + [ZERO]) == Err(MissingUnit)
  {
    LoneZero(step);
    hide Segment;
    assert (a + [ZERO])[0] == a[0] && |a + [ZERO]| > 1;
    if a != [ZERO] { ParseConcat(step, 0, a, [ZERO]); }
  }

  lemma LoneZero(step: FracStep)
    ensures Segment(step, [ZERO]) == Segment(step, [ZERO] + [ZERO]) == Err(MissingUnit)
  {
    assert [ZERO][1..] == [] && ([ZERO] + [ZERO])[1..] == [ZERO];
    assert ScanInt(0, []) == Some((0, []));
    assert ScanInt(0, [ZERO]) == Some((0, []));
    assert ScanInt(0, [ZERO] + [ZERO]) == Some((0, []));
  }
}
