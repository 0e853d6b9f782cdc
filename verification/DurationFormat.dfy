/** The duration printer, filling its fixed 32-byte buffer from the right. */
module DurationFormat {
  import opened Common
  import opened DurationText

  /** `w -= 1; buf[w] = b`. Throughout, what is written sits in front of the text so far, which
      stays in place. */
  method Put(buf: array<Byte>, w: nat, b: Byte) returns (w': nat)
    requires 0 < w <= buf.Length
    modifies buf
    ensures w' == w - 1 && buf[w'..] == [b] + old(buf[w..])
  {
    w' := w - 1;
    buf[w'] := b;
  }

  /** Formats `v` so that it ends at `end`; returns where it begins. */
  method FmtInt(buf: array<Byte>, end: nat, v: nat) returns (w: nat)
    requires |Digits(v)| <= end <= buf.Length
    modifies buf
    ensures w + |Digits(v)| == end && buf[w..] == Digits(v) + old(buf[end..])
  {
    w := end;
    if v == 0 {
      w := Put(buf, w, ZERO);
      return;
    }
    LeadingIsDigits(v);
    ghost var tail, full := buf[end..], Leading(v);
    var rest := v;
    while rest > 0
      invariant w <= end && |Leading(rest)| + end - w == |full|
      invariant Leading(rest) + buf[w..] == full + tail
    {
      Assoc(Leading(rest / 10), [ZERO + rest % 10], buf[w..]);
      w := Put(buf, w, ZERO + rest % 10);
      rest := rest / 10;
    }
    assert [] + buf[w..] == buf[w..];
  }

  /** Formats the fraction of `v / 10^prec`; returns where it begins and `v / 10^prec`. */
  method FmtFrac(buf: array<Byte>, end: nat, v: nat, prec: nat) returns (w: nat, rest: nat)
    requires prec + 1 <= end <= buf.Length
    modifies buf
    ensures w + |FracText(v, prec)| == end && buf[w..] == FracText(v, prec) + old(buf[end..])
    ensures rest == Dropped(v, prec)
  {
    w, rest := end, v;
    var print_ := false;
    for i := 0 to prec
      invariant end - i <= w <= end && (!print_ ==> w == end)
      invariant Dropped(v, prec) == Dropped(rest, prec - i)
      invariant FracPrints(v, prec, false) == FracPrints(rest, prec - i, print_)
      invariant |FracTail(v, prec, false)| == |FracTail(rest, prec - i, print_)| + end - w
      invariant FracTail(v, prec, false) + old(buf[end..]) == FracTail(rest, prec - i, print_) + buf[w..]
    {
      var digit := rest % 10;
      print_ := print_ || digit != 0;
      if print_ {
        Assoc(FracTail(rest / 10, prec - i - 1, true), [ZERO + digit], buf[w..]);
        w := Put(buf, w, ZERO + digit);
      } else {
        assert FracTail(rest / 10, prec - i - 1, false) + [] == FracTail(rest / 10, prec - i - 1, false);
      }
      rest := rest / 10;
    }
    assert FracTail(rest, 0, print_) + buf[w..] == buf[w..];
    if print_ {
      Assoc([DOT], FracTail(v, prec, false), old(buf[end..]));
      w := Put(buf, w, DOT);
    } else {
      assert buf[w..] == [] + old(buf[end..]);
    }
  }

  /** Number and fraction in front of what starts at `end`. */
  method PutDecimal(buf: array<Byte>, end: nat, u: nat, prec: nat) returns (w: nat)
    requires prec + 1 + |Digits(Dropped(u, prec))| <= end <= buf.Length
    modifies buf
    ensures w <= end && buf[w..] == Digits(Dropped(u, prec)) + FracText(u, prec) + old(buf[end..])
  {
    var rest;
    w, rest := FmtFrac(buf, end, u, prec);
    w := FmtInt(buf, w, rest);
    Assoc(Digits(rest), FracText(u, prec), old(buf[end..]));
  }

  /** Below one second. */
  method FormatSmall(buf: array<Byte>, u: nat) returns (w: nat)
    requires buf.Length == 32 && u < SECOND
    modifies buf
    ensures w <= buf.Length && buf[w..] == FormatText(u)
  {
    w := Put(buf, 32, S[0]);
    assert buf[w..] == S;
    if u == 0 {
      w := Put(buf, w, ZERO);
      return;
    }
    DroppedBounds(u);
    SmallDigits(u);
    SmallDigits(u / 1_000);
    SmallDigits(u / 1_000_000);
    if u < MICROSECOND {
      w := Put(buf, w, NS[0]);
      w := PutDecimal(buf, w, u, 0);
      assert Digits(u) + [] + NS == Digits(u) + NS;
    } else if u < MILLISECOND {
      w := Put(buf, w, MICRO_SIGN_S[1]);
      w := Put(buf, w, MICRO_SIGN_S[0]);
      assert buf[w..] == MICRO_SIGN_S;
      w := PutDecimal(buf, w, u, 3);
    } else {
      w := Put(buf, w, MS[0]);
      assert buf[w..] == MS;
      w := PutDecimal(buf, w, u, 6);
    }
  }

  /** A number and a one-letter unit. */
  method PutSegment(buf: array<Byte>, end: nat, v: nat, letter: Byte) returns (w: nat)
    requires 1 + |Digits(v)| <= end <= buf.Length
    modifies buf
    ensures w + |Digits(v)| + 1 == end && buf[w..] == Digits(v) + [letter] + old(buf[end..])
  {
    w := Put(buf, end, letter);
    w := FmtInt(buf, w, v);
    Assoc(Digits(v), [letter], old(buf[end..]));
  }

  /** One second and above. */
  method FormatLarge(buf: array<Byte>, u: nat) returns (w: nat)
    requires buf.Length == 32 && SECOND <= u <= U64_MAX
    modifies buf
    ensures w <= buf.Length && buf[w..] == FormatText(u)
  {
    DroppedBounds(u);
    w := Put(buf, 32, S[0]);
    assert buf[w..] == S;
    var secs;
    w, secs := FmtFrac(buf, w, u, 9);
    SmallDigits(secs % 60);
    w := FmtInt(buf, w, secs % 60);
    Assoc(Digits(secs % 60), FracText(u, 9), S);
    var mins := secs / 60;
    if mins > 0 {
      SmallDigits(mins % 60);
      w := PutSegment(buf, w, mins % 60, M[0]);
      var hours := mins / 60;
      if hours > 0 {
        SmallDigits(hours);
        w := PutSegment(buf, w, hours, H[0]);
      }
    }
  }

  /** `format_go_duration`: any duration, saturated to u64 nanoseconds. The buffer accesses above
      are all in bounds. */
  method FormatGoDuration(nanos: nat) returns (text: seq<Byte>)
    ensures text == FormatText(if nanos <= U64_MAX then nanos else U64_MAX)
    ensures 2 <= |text| <= 24
  {
    var u := if nanos <= U64_MAX then nanos else U64_MAX;
    var buf := new Byte[32](_ => 0);
    var w;
    if u < SECOND {
      w := FormatSmall(buf, u);
    } else {
      w := FormatLarge(buf, u);
    }
    FormatLength(u);
    text := buf[w..];
  }
}
