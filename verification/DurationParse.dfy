/** The duration parser: its loops as methods, proved against functions on the remaining bytes. */
module DurationParse {
  import opened Common
  import opened DurationText

  datatype ParseError = InvalidDuration | NegativeDuration | MissingUnit | UnknownUnit

  /** The parser's one floating-point step, `(frac as f64 * (unit as f64 / scale)) as u64`, given as
      `step(frac, unit, scale)`. */
  type FracStep = (nat, nat, nat) -> nat

  const F64_EXACT: nat := 0x20_0000_0000_0000

  /** All that is assumed of it: where the quotient is a whole number and the product stays below
      2^53, every f64 involved is an exact integer. */
  ghost predicate ExactOnIntegers(step: FracStep) {
    forall frac: nat, quotient: nat, scale: nat {:trigger step(frac, quotient * scale, scale)} ::
      scale > 0 && frac * quotient < F64_EXACT && quotient * scale < F64_EXACT && frac < F64_EXACT ==>
        step(frac, quotient * scale, scale) == frac * quotient
  }

  // ---------------------------------------------------------------------------------------------
  // Scanning
  // ---------------------------------------------------------------------------------------------

  /** `[0-9]*` onto `x`; `None` once the value passes Go's maximum. */
  function ScanInt(x: nat, s: seq<Byte>): (r: Option<(nat, seq<Byte>)>)
    ensures r.Some? ==> |r.value.1| <= |s|
    decreases s
  {
    if s == [] || !IsDigit(s[0]) then Some((x, s))
    else var y := 10 * x + (s[0] - ZERO);
         if y > GO_MAX then None else ScanInt(y, s[1..])
  }

  method LeadingInt(s: seq<Byte>) returns (r: Option<(nat, seq<Byte>)>)
    ensures r == ScanInt(0, s)
  {
    var x: nat, end: nat := 0, 0;
    while end < |s| && IsDigit(s[end])
      invariant end <= |s| && ScanInt(0, s) == ScanInt(x, s[end..])
    {
      x := 10 * x + (s[end] - ZERO);
      if x > GO_MAX { return None; }
      assert s[end..][1..] == s[end + 1..];
      end := end + 1;
    }
    return Some((x, s[end..]));
  }

  datatype Fraction = Fraction(digits: nat, scale: nat, rest: seq<Byte>)

  /** `[0-9]*` as a fraction; digits from the first overflow on are skipped. */
  function ScanFraction(x: nat, scale: nat, overflow: bool, s: seq<Byte>): (r: Fraction)
    ensures |r.rest| <= |s|
    decreases s
  {
    if s == [] || !IsDigit(s[0]) then Fraction(x, scale, s)
    else var y := 10 * x + (s[0] - ZERO);
         if overflow || y > GO_MAX then ScanFraction(x, scale, true, s[1..])
         else ScanFraction(y, 10 * scale, false, s[1..])
  }

  method LeadingFraction(s: seq<Byte>) returns (r: Fraction)
    ensures r == ScanFraction(0, 1, false, s)
  {
    var x: nat, scale: nat, overflow, end: nat := 0, 1, false, 0;
    while end < |s| && IsDigit(s[end])
      invariant end <= |s| && ScanFraction(0, 1, false, s) == ScanFraction(x, scale, overflow, s[end..])
    {
      assert s[end..][1..] == s[end + 1..];
      if !overflow {
        var y := 10 * x + (s[end] - ZERO);
        if y <= GO_MAX {
          x, scale := y, 10 * scale;
        } else {
          overflow := true;
        }
      }
      end := end + 1;
    }
    return Fraction(x, scale, s[end..]);
  }

  predicate StartsNumber(s: seq<Byte>) {
    s != [] && (s[0] == DOT || IsDigit(s[0]))
  }

  /** Bytes before the next digit or point. */
  function UnitLength(s: seq<Byte>): (n: nat)
    ensures n <= |s| && (n > 0 <==> s != [] && !StartsNumber(s))
  {
    if s == [] || StartsNumber(s) then 0 else 1 + UnitLength(s[1..])
  }

  function UnitScale(unit: seq<Byte>): Option<nat> {
    if unit == NS then Some(1)
    else if unit == US || unit == MICRO_SIGN_S || unit == GREEK_MU_S then Some(MICROSECOND)
    else if unit == MS then Some(MILLISECOND)
    else if unit == S then Some(SECOND)
    else if unit == M then Some(MINUTE)
    else if unit == H then Some(HOUR)
    else None
  }

  // ---------------------------------------------------------------------------------------------
  // One segment, then all of them
  // ---------------------------------------------------------------------------------------------

  /** The number in front of a unit: whole part, fraction, and whether there was any digit. */
  datatype Number = Number(whole: nat, frac: nat, scale: nat, digits: bool, rest: seq<Byte>)

  function ScanNumber(s: seq<Byte>): (r: Option<Number>)
    ensures r.Some? ==> |r.value.rest| <= |s|
  {
    match ScanInt(0, s)
    case None => None
    case Some((v, rest)) =>
      if rest != [] && rest[0] == DOT then
        var f := ScanFraction(0, 1, false, rest[1..]);
        Some(Number(v, f.digits, f.scale, |rest| != |s| || |f.rest| != |rest[1..]|, f.rest))
      else Some(Number(v, 0, 1, |rest| != |s|, rest))
  }

  function SegmentNanos(step: FracStep, n: Number, unit: nat): nat {
    n.whole * unit + (if n.frac > 0 then step(n.frac, unit, n.scale) else 0)
  }

  /** One round of the loop: the nanoseconds of the first `<number><unit>` and what follows it. */
  function Segment(step: FracStep, s: seq<Byte>): (r: Result<(nat, seq<Byte>), ParseError>)
    ensures r.Ok? ==> |r.value.1| < |s| && r.value.0 <= GO_MAX && StartsNumber(s)
  {
    if !StartsNumber(s) then Err(InvalidDuration) else
    match ScanNumber(s)
    case None => Err(InvalidDuration)
    case Some(n) =>
      if !n.digits then Err(InvalidDuration) else
      var length := UnitLength(n.rest);
      if length == 0 then Err(MissingUnit) else
      match UnitScale(n.rest[..length])
      case None => Err(UnknownUnit)
      case Some(unit) =>
        var nanos := SegmentNanos(step, n, unit);
        if nanos > GO_MAX then Err(InvalidDuration) else Ok((nanos, n.rest[length..]))
  }

  function ParseFrom(step: FracStep, total: nat, s: seq<Byte>): Result<nat, ParseError>
    decreases |s|
  {
    if s == [] then Ok(total) else
    match Segment(step, s)
    case Err(e) => Err(e)
    case Ok((nanos, rest)) =>
      if total + nanos > GO_MAX then Err(InvalidDuration) else ParseFrom(step, total + nanos, rest)
  }

  predicate Signed(s: seq<Byte>) {
    s != [] && (s[0] == PLUS || s[0] == MINUS)
  }

  function ParseGoDuration(step: FracStep, s: seq<Byte>): Result<nat, ParseError> {
    var rest := if Signed(s) then s[1..] else s;
    if rest == [ZERO] then Ok(0)
    else if rest == [] then Err(InvalidDuration)
    else if s[0] == MINUS then Err(NegativeDuration)
    else ParseFrom(step, 0, rest)
  }

  /** The loop of `parse_go_duration`, checking each product and sum as the source does. */
  method ParseGoDurationLoop(step: FracStep, s: seq<Byte>) returns (r: Result<nat, ParseError>)
    ensures r == ParseGoDuration(step, s)
  {
    hide Segment;
    var rest, neg := s, false;
    if Signed(rest) {
      neg := rest[0] == MINUS;
      rest := rest[1..];
    }
    if rest == [ZERO] { return Ok(0); }
    if rest == [] { return Err(InvalidDuration); }
    if neg { return Err(NegativeDuration); }
    var total: nat := 0;
    while rest != []
      invariant ParseGoDuration(step, s) == ParseFrom(step, total, rest)
      decreases |rest|
    {
      var segment := ParseSegment(step, rest);
      if segment.Err? { return Err(segment.error); }
      total, rest := total + segment.value.0, segment.value.1;
      if total > GO_MAX { return Err(InvalidDuration); }
    }
    return Ok(total);
  }

  method ParseNumber(s: seq<Byte>) returns (r: Option<Number>)
    ensures r == ScanNumber(s)
  {
    var lead := LeadingInt(s);
    if lead.None? { return None; }
    var (v, rest) := lead.value;
    var pre := |rest| != |s|;
    if rest != [] && rest[0] == DOT {
      var f := LeadingFraction(rest[1..]);
      var post := |f.rest| != |rest[1..]|;
      return Some(Number(v, f.digits, f.scale, pre || post, f.rest));
    }
    return Some(Number(v, 0, 1, pre, rest));
  }

  method ParseSegment(step: FracStep, s: seq<Byte>) returns (r: Result<(nat, seq<Byte>), ParseError>)
    ensures r == Segment(step, s)
  {
    if !StartsNumber(s) { return Err(InvalidDuration); }
    var number := ParseNumber(s);
    if number.None? { return Err(InvalidDuration); }
    var Number(v, frac, scale, digits, rest) := number.value;
    if !digits { return Err(InvalidDuration); }
    var length := UnitLength(rest);
    if length == 0 { return Err(MissingUnit); }
    var scaled := UnitScale(rest[..length]);
    if scaled.None? { return Err(UnknownUnit); }
    var nanos := v * scaled.value;
    if nanos > GO_MAX { return Err(InvalidDuration); }
    if frac > 0 {
      nanos := nanos + step(frac, scaled.value, scale);
      if nanos > GO_MAX { return Err(InvalidDuration); }
    }
    return Ok((nanos, rest[length..]));
  }

  /** `str::parse::<u64>`: an optional plus, then one or more digits within u64. */
  function ParseU64(s: seq<Byte>): Option<nat> {
    var digits := if s != [] && s[0] == PLUS then s[1..] else s;
    if digits == [] || !AllDigits(digits) || Value(0, digits) > U64_MAX then None else Some(Value(0, digits))
  }

  /** The digits of `s` appended to `x`. */
  function Value(x: nat, s: seq<Byte>): nat
    requires AllDigits(s)
    decreases s
  {
    if s == [] then x else Value(10 * x + (s[0] - ZERO), s[1..])
  }

  /** `Duration::from_str`: bare nanoseconds first, then Go's syntax. */
  function FromStr(step: FracStep, s: seq<Byte>): Result<nat, ParseError> {
    match ParseU64(s)
    case Some(nanos) => Ok(nanos)
    case None => ParseGoDuration(step, s)
  }
}
