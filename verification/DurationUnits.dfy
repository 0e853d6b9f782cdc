/** What every accepted segment means: the units with their values written out, fractions of all of
    them, signs, and the canonical form of printed text. */
module DurationUnits {
  import opened Common
  import opened DurationText
  import opened DurationParse
  import opened DurationLaws

  /** The documented units as UTF-8 bytes, with their nanoseconds: ns, us, the micro sign and the
      Greek mu before s, ms, s, m, h. */
  const UNITS: seq<(seq<Byte>, nat)> :=
    [([110, 115], 1), ([117, 115], 1_000), ([194, 181, 115], 1_000), ([206, 188, 115], 1_000),
     ([109, 115], 1_000_000), ([115], 1_000_000_000), ([109], 60_000_000_000), ([104], 3_600_000_000_000)]

  ghost predicate HasValue(unit: seq<Byte>, nanos: nat) {
    exists i :: 0 <= i < |UNITS| && UNITS[i] == (unit, nanos)
  }

  ghost predicate IsKnown(unit: seq<Byte>) {
    exists i :: 0 <= i < |UNITS| && UNITS[i].0 == unit
  }

  lemma ScaleInTable(i: nat)
    requires i < |UNITS|
    ensures UnitScale(UNITS[i].0) == Some(UNITS[i].1)
  {
  }

  /** The parser's units are exactly those. */
  lemma UnitTable(unit: seq<Byte>)
    ensures UnitScale(unit).Some? <==> IsKnown(unit)
    ensures forall nanos: nat :: UnitScale(unit) == Some(nanos) <==> HasValue(unit, nanos)
  {
    forall i | 0 <= i < |UNITS| ensures UnitScale(UNITS[i].0) == Some(UNITS[i].1) { ScaleInTable(i); }
    if UnitScale(unit).Some? { InTable(unit); }
  }

  lemma InTable(unit: seq<Byte>)
    requires UnitScale(unit).Some?
    ensures HasValue(unit, UnitScale(unit).value)
  {
    if unit == NS { assert UNITS[0] == (unit, UnitScale(unit).value); }
    else if unit == US { assert UNITS[1] == (unit, UnitScale(unit).value); }
    else if unit == MICRO_SIGN_S { assert UNITS[2] == (unit, UnitScale(unit).value); }
    else if unit == GREEK_MU_S { assert UNITS[3] == (unit, UnitScale(unit).value); }
    else if unit == MS { assert UNITS[4] == (unit, UnitScale(unit).value); }
    else if unit == S { assert UNITS[5] == (unit, UnitScale(unit).value); }
    else if unit == M { assert UNITS[6] == (unit, UnitScale(unit).value); }
    else { assert UNITS[7] == (unit, UnitScale(unit).value); }
  }

  // ---------------------------------------------------------------------------------------------
  // One segment, in full
  // ---------------------------------------------------------------------------------------------

  /** Text without digits and points. */
  predicate PlainText(unit: seq<Byte>) {
    unit != [] && forall i | 0 <= i < |unit| :: unit[i] != 46 && !IsDigit(unit[i])
  }

  lemma {:induction false} SkipsDigits(x: nat, scale: nat, t: seq<Byte>, b: seq<Byte>)
    requires AllDigits(t) && (b == [] || !IsDigit(b[0]))
    ensures ScanFraction(x, scale, true, t + b) == Fraction(x, scale, b)
    decreases t
  {
    if t == [] {
      assert t + b == b;
    } else {
      assert (t + b)[1..] == t[1..] + b;
      SkipsDigits(x, scale, t[1..], b);
    }
  }

  /** `k` decimals are read: the longest run that stays within bounds. */
  ghost predicate Reads(x: nat, t: seq<Byte>, k: nat)
    requires AllDigits(t)
  {
    && k <= |t| && Value(x, t[..k]) <= GO_MAX
    && (k < |t| ==> Value(x, t[..k + 1]) > GO_MAX)
  }

  lemma {:induction false} FractionReads(x: nat, j: nat, t: seq<Byte>, b: seq<Byte>) returns (k: nat)
    requires AllDigits(t) && x <= GO_MAX && (b == [] || !IsDigit(b[0]))
    ensures Reads(x, t, k)
    ensures ScanFraction(x, Pow10(j), false, t + b) == Fraction(Value(x, t[..k]), Pow10(j + k), b)
    decreases t
  {
    k := 0;
    if t == [] {
      assert t + b == b;
    } else {
      var y := 10 * x + (t[0] - ZERO);
      assert (t + b)[1..] == t[1..] + b;
      assert t[..1][1..] == [];
      if y > GO_MAX {
        SkipsDigits(x, Pow10(j), t[1..], b);
      } else {
        var k' := FractionReads(y, j + 1, t[1..], b);
        k := k' + 1;
        assert t[..k][1..] == t[1..][..k'];
        if k < |t| { assert t[..k + 1][1..] == t[1..][..k' + 1]; }
      }
    }
  }

  /** A segment's text: digits, an optional point with decimals, a unit. */
  function Written(w: seq<Byte>, t: Option<seq<Byte>>, unit: seq<Byte>): seq<Byte> {
    w + ((if t.Some? then [46] + t.value else []) + unit)
  }

  lemma NumberIs(w: seq<Byte>, t: Option<seq<Byte>>, unit: seq<Byte>) returns (k: nat)
    requires AllDigits(w) && (t.Some? ==> AllDigits(t.value)) && Value(0, w) <= GO_MAX && PlainText(unit)
    ensures t.Some? ==> Reads(0, t.value, k)
    ensures ScanNumber(Written(w, t, unit)) ==
              Some(Number(Value(0, w), if t.Some? then Value(0, t.value[..k]) else 0, if t.Some? then Pow10(k) else 1,
                          w != [] || (t.Some? && t.value != []), unit))
  {
    hide Value, Pow10, ScanFraction;
    var s, tail := Written(w, t, unit), (if t.Some? then [46] + t.value else []) + unit;
    ScanIntDigits(0, w, tail);
    k := 0;
    if t.Some? {
      assert tail[1..] == t.value + unit;
      k := FractionReads(0, 0, t.value, unit);
      assert Pow10(0) == 1 by { NoDecimals(); }
    } else {
      assert tail == unit;
    }
  }

  lemma UnitIs(unit: seq<Byte>)
    requires PlainText(unit)
    ensures UnitLength(unit) == |unit| && !StartsNumber(unit)
  {
    UnitLengthSkips(unit, []);
    assert unit + [] == unit;
  }

  /** What a text of one segment parses to: too large a whole part is refused, then an unknown unit,
      then too large a value; otherwise it is the whole part times the unit plus what the float step
      makes of the decimals read. */
  ghost predicate Means(step: FracStep, w: seq<Byte>, t: Option<seq<Byte>>, unit: seq<Byte>, k: nat,
                        r: Result<nat, ParseError>)
    requires AllDigits(w) && (t.Some? ==> AllDigits(t.value) && k <= |t.value|)
  {
    if Value(0, w) > GO_MAX then r == Err(InvalidDuration)
    else if !IsKnown(unit) then r == Err(UnknownUnit)
    else exists nanos: nat ::
           && HasValue(unit, nanos)
           && var frac := if t.Some? then Value(0, t.value[..k]) else 0;
              r == Judged(Value(0, w) * nanos + if frac > 0 then step(frac, nanos, Pow10(k)) else 0)
  }

  lemma OneSegment(step: FracStep, w: seq<Byte>, t: Option<seq<Byte>>, unit: seq<Byte>) returns (k: nat)
    requires AllDigits(w) && (t.Some? ==> AllDigits(t.value)) && PlainText(unit)
    requires w != [] || (t.Some? && t.value != [])
    ensures t.Some? ==> Reads(0, t.value, k)
    ensures Means(step, w, t, unit, k, ParseGoDuration(step, Written(w, t, unit)))
  {
    hide Value, Pow10, ScanNumber, UnitScale, HasValue, IsKnown, Reads, Written, Segment, PlainText;
    var s := Written(w, t, unit);
    StartsWell(w, t, unit);
    if Value(0, w) > GO_MAX {
      TooLarge(w, t, unit);
      NoNumber(step, s);
      k := 0;
      if t.Some? { k := FractionReads(0, 0, t.value, []); }
      ReadsWithin(t, k);
    } else {
      k := NumberIs(w, t, unit);
      ReadsWithin(t, k);
      UnitTable(unit);
      var n := ScanNumber(s).value;
      NumberThenUnit(step, s, n, unit);
      if UnitScale(unit).Some? {
        var nanos := UnitScale(unit).value;
        assert HasValue(unit, nanos);
        ParseEmpty(step, SegmentNanos(step, n, nanos));
        assert ParseGoDuration(step, s) == Judged(SegmentNanos(step, n, nanos));
      }
    }
  }

  lemma NoNumber(step: FracStep, s: seq<Byte>)
    requires StartsNumber(s) && ScanNumber(s) == None
    ensures Segment(step, s) == Err(InvalidDuration)
  {
  }

  lemma NumberThenUnit(step: FracStep, s: seq<Byte>, n: Number, unit: seq<Byte>)
    requires StartsNumber(s) && ScanNumber(s) == Some(n) && n.digits && n.rest == unit && PlainText(unit)
    ensures UnitScale(unit) == None ==> Segment(step, s) == Err(UnknownUnit)
    ensures UnitScale(unit).Some? ==>
              var nanos := SegmentNanos(step, n, UnitScale(unit).value);
              Segment(step, s) == if nanos > GO_MAX then Err(InvalidDuration) else Ok((nanos, []))
  {
    hide ScanNumber, UnitScale, UnitLength;
    UnitIs(unit);
    assert unit[..|unit|] == unit && unit[|unit|..] == [];
  }

  lemma ReadsWithin(t: Option<seq<Byte>>, k: nat)
    requires t.Some? ==> AllDigits(t.value) && Reads(0, t.value, k)
    ensures t.Some? ==> k <= |t.value|
  {
  }

  lemma StartsWell(w: seq<Byte>, t: Option<seq<Byte>>, unit: seq<Byte>)
    requires AllDigits(w) && (t.Some? ==> AllDigits(t.value)) && PlainText(unit)
    requires w != [] || (t.Some? && t.value != [])
    ensures var s := Written(w, t, unit); StartsNumber(s) && !Signed(s) && s != [ZERO]
  {
    var s := Written(w, t, unit);
    assert s[|s| - 1] == unit[|unit| - 1];
    if w != [] { assert s[0] == w[0]; } else { assert s[0] == 46; }
  }

  lemma TooLarge(w: seq<Byte>, t: Option<seq<Byte>>, unit: seq<Byte>)
    requires AllDigits(w) && Value(0, w) > GO_MAX
    ensures ScanNumber(Written(w, t, unit)) == None
  {
    ScanOverflow(0, w, (if t.Some? then [46] + t.value else []) + unit);
  }

  lemma {:induction false} ScanOverflow(x: nat, w: seq<Byte>, b: seq<Byte>)
    requires AllDigits(w) && Value(x, w) > GO_MAX && x <= GO_MAX
    ensures ScanInt(x, w + b) == None
    decreases w
  {
    assert (w + b)[1..] == w[1..] + b;
    if 10 * x + (w[0] - ZERO) <= GO_MAX { ScanOverflow(10 * x + (w[0] - ZERO), w[1..], b); }
  }

  /** A point without any digit is refused whatever the unit. */
  lemma NoDigits(step: FracStep, unit: seq<Byte>)
    requires PlainText(unit)
    ensures ParseGoDuration(step, [46] + unit) == Err(InvalidDuration)
  {
    var k := NumberIs([], Some([]), unit);
    assert Written([], Some([]), unit) == [46] + unit;
  }

  // ---------------------------------------------------------------------------------------------
  // Corollaries
  // ---------------------------------------------------------------------------------------------

  lemma UnitsPlain(i: nat)
    requires i < |UNITS|
    ensures PlainText(UNITS[i].0) && UNITS[i].1 >= 1
    ensures forall nanos: nat | HasValue(UNITS[i].0, nanos) :: nanos == UNITS[i].1
  {
    ScaleInTable(i);
    UnitTable(UNITS[i].0);
  }

  /** A whole number of any unit is that many of its nanoseconds, up to Go's maximum. */
  lemma UnitValues(step: FracStep, v: nat, i: nat)
    requires i < |UNITS|
    ensures ParseGoDuration(step, Digits(v) + UNITS[i].0) == Judged(v * UNITS[i].1)
  {
    hide ParseGoDuration, Digits, HasValue, PlainText;
    var unit, nanos := UNITS[i].0, UNITS[i].1;
    UnitsPlain(i);
    ValueOfDigits(v);
    var k := OneSegment(step, Digits(v), None, unit);
    assert Written(Digits(v), None, unit) == Digits(v) + unit;
    assert IsKnown(unit);
    ProductBounds(v, nanos);
  }

  /** Any other unit is unknown. */
  lemma OtherUnits(step: FracStep, v: nat, unit: seq<Byte>)
    requires v <= GO_MAX && PlainText(unit) && !IsKnown(unit)
    ensures ParseGoDuration(step, Digits(v) + unit) == Err(UnknownUnit)
  {
    hide ParseGoDuration, Digits, HasValue, PlainText;
    ValueOfDigits(v);
    var k := OneSegment(step, Digits(v), None, unit);
    assert Written(Digits(v), None, unit) == Digits(v) + unit;
  }

  lemma {:induction false} ValueBelow(x: nat, t: seq<Byte>)
    requires AllDigits(t)
    ensures Value(x, t) < (x + 1) * Pow10(|t|)
    decreases t
  {
    if t != [] {
      var y := 10 * x + (t[0] - ZERO);
      ValueBelow(y, t[1..]);
      Scaled(x, y, Pow10(|t| - 1));
    }
  }

  lemma OrderedProducts(a: nat, b: nat, p: nat)
    requires a <= b
    ensures a * p <= b * p
  {
  }

  lemma Scaled(x: nat, y: nat, p: nat)
    requires y <= 10 * x + 9
    ensures (y + 1) * p <= (x + 1) * (10 * p)
  {
    TimesTen(x + 1, p);
    OrderedProducts(y + 1, 10 * (x + 1), p);
    assert 10 * (x + 1) * p == 10 * ((x + 1) * p);
  }

  /** Decimals of any unit are exact while they divide it: `q` is the worth of the last one. */
  lemma UnitFractions(step: FracStep, w: seq<Byte>, t: seq<Byte>, i: nat, q: nat)
    requires ExactOnIntegers(step) && AllDigits(w) && AllDigits(t) && w != [] && i < |UNITS|
    requires q * Pow10(|t|) == UNITS[i].1
    ensures ParseGoDuration(step, w + ([46] + t + UNITS[i].0)) == Judged(Value(0, w) * UNITS[i].1 + Value(0, t) * q)
  {
    hide ParseGoDuration, Pow10, Value, HasValue, PlainText, ExactOnIntegers, Reads, Written, Means;
    var unit, nanos := UNITS[i].0, UNITS[i].1;
    UnitsPlain(i);
    var k := OneSegment(step, w, Some(t), unit);
    WrittenPoint(w, t, unit);
    assert IsKnown(unit);
    DecimalsExact(step, t, q, i, k);
    MeansExactly(step, w, t, unit, k, ParseGoDuration(step, w + ([46] + t + unit)), nanos, q);
  }

  lemma MeansExactly(step: FracStep, w: seq<Byte>, t: seq<Byte>, unit: seq<Byte>, k: nat,
                     r: Result<nat, ParseError>, nanos: nat, q: nat)
    requires AllDigits(w) && AllDigits(t) && k <= |t| && t[..k] == t && Means(step, w, Some(t), unit, k, r)
    requires IsKnown(unit) && nanos >= 1 && forall m: nat | HasValue(unit, m) :: m == nanos
    requires step(Value(0, t), nanos, Pow10(k)) == Value(0, t) * q
    ensures r == Judged(Value(0, w) * nanos + Value(0, t) * q)
  {
    hide Value, Pow10, HasValue, IsKnown;
    if Value(0, w) > GO_MAX { ProductBounds(Value(0, w), nanos); }
  }

  lemma WrittenPoint(w: seq<Byte>, t: seq<Byte>, unit: seq<Byte>)
    ensures Written(w, Some(t), unit) == w + ([46] + t + unit)
  {
  }

  lemma DecimalsExact(step: FracStep, t: seq<Byte>, q: nat, i: nat, k: nat)
    requires ExactOnIntegers(step) && AllDigits(t) && i < |UNITS| && q * Pow10(|t|) == UNITS[i].1 && Reads(0, t, k)
    ensures k <= |t| && t[..k] == t
    ensures step(Value(0, t), UNITS[i].1, Pow10(k)) == Value(0, t) * q
  {
    hide ExactOnIntegers, Value, Pow10, Reads;
    SmallUnit(i);
    ValueBelow(0, t);
    BelowUnit(q, Pow10(|t|));
    ReadsAll(t, k);
    ExactFraction(step, Value(0, t), q, Pow10(|t|));
  }

  lemma BelowUnit(q: nat, p: nat)
    requires 1 <= q * p
    ensures q >= 1 && p <= q * p
  {
    if q >= 1 { ProductBounds(p, q); }
  }

  lemma SmallUnit(i: nat)
    requires i < |UNITS|
    ensures 1 <= UNITS[i].1 <= 3_600_000_000_000
  {
  }

  lemma ReadsAll(t: seq<Byte>, k: nat)
    requires AllDigits(t) && Reads(0, t, k) && Value(0, t) <= GO_MAX
    ensures k == |t|
  {
    if k < |t| {
      ValuePrefix(0, t, k + 1);
    }
  }

  lemma {:induction false} ValuePrefix(x: nat, t: seq<Byte>, k: nat)
    requires AllDigits(t) && k <= |t|
    ensures Value(x, t[..k]) <= Value(x, t)
    decreases t
  {
    if k == 0 {
      ValueGrows(x, t);
    } else {
      assert t[..k][1..] == t[1..][..k - 1];
      ValuePrefix(10 * x + (t[0] - ZERO), t[1..], k - 1);
    }
  }

  lemma ExactFraction(step: FracStep, frac: nat, q: nat, p: nat)
    requires ExactOnIntegers(step) && frac < p && 1 <= q * p <= 3_600_000_000_000
    ensures step(frac, q * p, p) == frac * q
  {
    BelowUnit(q, p);
    OrderedProducts(frac, p, q);
  }

  /** One and a half hours. */
  lemma HourAndAHalf(step: FracStep)
    requires ExactOnIntegers(step)
    ensures ParseGoDuration(step, [49, 46, 53, 104]) == Ok(5_400_000_000_000)
  {
    hide ParseGoDuration;
    assert Pow10(1) == 10 * Pow10(0) && Value(0, [49]) == 1 && Value(0, [53]) == 5 by { OneDigit(49); OneDigit(53); }
    UnitFractions(step, [49], [53], 7, 360_000_000_000);
    assert [49] + ([46] + [53] + [104]) == [49, 46, 53, 104];
  }

  lemma OneDigit(b: Byte)
    requires IsDigit(b)
    ensures Value(0, [b]) == b - 48 && Pow10(1) == 10
  {
    assert [b][1..] == [];
    assert Pow10(0) == 1;
  }

  /** A plus changes nothing; a minus is refused, except before the bare zero. */
  lemma Signs(step: FracStep, s: seq<Byte>)
    requires !Signed(s)
    ensures ParseGoDuration(step, [43] + s) == ParseGoDuration(step, s)
    ensures ParseGoDuration(step, [45] + s) ==
              if s == [48] then Ok(0) else if s == [] then Err(InvalidDuration) else Err(NegativeDuration)
  {
    assert ([43] + s)[1..] == s && ([45] + s)[1..] == s;
  }

  // ---------------------------------------------------------------------------------------------
  // Printed text
  // ---------------------------------------------------------------------------------------------

  /** `t` is what is printed of a remainder below ten to the `prec`: its decimals without trailing
      zeros. */
  ghost predicate Trimmed(t: seq<Byte>, rem: nat, prec: nat) {
    && AllDigits(t) && |t| <= prec && Value(0, t) * Pow10(prec - |t|) == rem
    && (t != [] ==> t[|t| - 1] != 48)
  }

  lemma FracIsTrimmed(v: nat, prec: nat) returns (t: seq<Byte>)
    ensures Trimmed(t, v % Pow10(prec), prec)
    ensures FracText(v, prec) == if t == [] then [] else [46] + t
  {
    t := FracTail(v, prec, false);
    FracTailValue(v, prec);
    FracTailTrimmed(v, prec);
  }

  lemma Powers()
    ensures Pow10(3) == 1_000 && Pow10(6) == 1_000_000 && Pow10(9) == 1_000_000_000
  {
    DecimalUnitScale(MICRO_SIGN_S, 3);
    DecimalUnitScale(MS, 6);
    DecimalUnitScale(S, 9);
  }

  function Point(t: seq<Byte>): seq<Byte> {
    if t == [] then [] else [46] + t
  }

  /** The printed form: below a second, one number in the largest unit that leaves a whole part; from
      a second on, hours if there are any, minutes below sixty if there are any or hours, and seconds
      below sixty; decimals only on the last number, without trailing zeros. */
  lemma FormatCanonical(u: nat) returns (t: seq<Byte>)
    requires u <= U64_MAX
    ensures u == 0 ==> FormatText(u) == [48, 115]
    ensures 0 < u < 1_000 ==> FormatText(u) == Digits(u) + [110, 115]
    ensures 1_000 <= u < 1_000_000 ==>
              Trimmed(t, u % 1_000, 3) && FormatText(u) == Digits(u / 1_000) + Point(t) + [194, 181, 115]
    ensures 1_000_000 <= u < 1_000_000_000 ==>
              Trimmed(t, u % 1_000_000, 6) && FormatText(u) == Digits(u / 1_000_000) + Point(t) + [109, 115]
    ensures 1_000_000_000 <= u ==>
              && Trimmed(t, u % 1_000_000_000, 9)
              && var seconds := Digits(u / 1_000_000_000 % 60) + Point(t) + [115];
                 var minutes := Digits(u / 60_000_000_000 % 60) + [109] + seconds;
                 FormatText(u) == if u < 60_000_000_000 then seconds else if u < 3_600_000_000_000 then minutes
                                  else Digits(u / 3_600_000_000_000) + [104] + minutes
  {
    hide Digits, FracText, Pow10, Dropped, Trimmed;
    Powers();
    if u < MICROSECOND {
      t := [];
    } else if u < MILLISECOND {
      t := FracIsTrimmed(u, 3);
      DroppedIsDiv(u, 3);
    } else if u < SECOND {
      t := FracIsTrimmed(u, 6);
      DroppedIsDiv(u, 6);
    } else {
      t := FracIsTrimmed(u, 9);
      DroppedIsDiv(u, 9);
      assert u / 1_000_000_000 / 60 == u / 60_000_000_000;
      assert u / 60_000_000_000 / 60 == u / 3_600_000_000_000;
    }
    if u == 0 { assert [ZERO] + S == [48, 115]; }
  }

  /** Decimal digits, the last one first, with no zero in front. */
  lemma DigitsAre(v: nat)
    ensures var s := Digits(v);
            && s[|s| - 1] == 48 + v % 10 && (v >= 10 ==> s[..|s| - 1] == Digits(v / 10)) && (v < 10 ==> |s| == 1)
            && (v > 0 ==> s[0] != 48)
  {
    if v >= 10 { DigitsAre(v / 10); }
  }
}
