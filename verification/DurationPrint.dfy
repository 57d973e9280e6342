/** Printing a duration: a fixed buffer is filled from the back. */
module DurationPrint {
  import opened Arith
  import opened Bytes
  import opened Decimal

  const MICROSECOND: nat := 1_000
  const MILLISECOND: nat := 1_000_000
  const SECOND: nat := 1_000_000_000
  const MINUTE: nat := 60_000_000_000
  const HOUR: nat := 3_600_000_000_000
  const U64_MAX: nat := 0xFFFF_FFFF_FFFF_FFFF

  const N: byte := 110
  const U: byte := 117
  const M: byte := 109
  const S: byte := 115
  const H: byte := 104

  /** The text of `d` nanoseconds. */
  function Print(d: nat): (r: seq<byte>) {
    if d == 0 then [ZERO, S]
    else if d < MICROSECOND then Digits(d) + [N, S]
    else if d < MILLISECOND then Digits(d / MICROSECOND) + Fraction(d, 3) + [U, S]
    else if d < SECOND then Digits(d / MILLISECOND) + Fraction(d, 6) + [M, S]
    else HoursText(d / HOUR) + MinutesText(d / MINUTE) + SecondsText(d)
  }

  function HoursText(hours: nat): (r: seq<byte>) {
    if hours == 0 then [] else Digits(hours) + [H]
  }

  function MinutesText(minutes: nat): (r: seq<byte>) {
    if minutes == 0 then [] else Digits(minutes % 60) + [M]
  }

  function SecondsText(d: nat): (r: seq<byte>) {
    Digits(d / SECOND % 60) + Fraction(d, 9) + [S]
  }

  /** Writes one byte in front of position `end`. */
  method Put(buf: array<byte>, end: nat, c: byte) returns (w: nat)
    requires 0 < end <= buf.Length
    modifies buf
    ensures w == end - 1 && buf[w..] == [c] + old(buf[end..])
  {
    w := end - 1;
    buf[w] := c;
  }

  /** Writes the numeral of `v` right before `end`. */
  method FmtInt(buf: array<byte>, end: nat, v: nat) returns (w: nat)
    requires |Digits(v)| <= end <= buf.Length
    modifies buf
    ensures w + |Digits(v)| == end && buf[w..] == Digits(v) + old(buf[end..])
  {
    w := end;
    ghost var after := buf[end..];
    if v == 0 {
      w := Put(buf, w, ZERO);
    } else {
      var x := v;
      while x > 0
        invariant w <= end && (x == 0 || |Digits(x)| <= w)
        invariant (if x == 0 then [] else Digits(x)) + buf[w..] == Digits(v) + after
        decreases x
      {
        AppendAssoc(if x / 10 == 0 then [] else Digits(x / 10), [x % 10 + 48], buf[w..]);
        assert Digits(x) == (if x / 10 == 0 then [] else Digits(x / 10)) + [x % 10 + 48];
        w := Put(buf, w, x % 10 + 48);
        x := x / 10;
      }
      assert |buf[w..]| == |Digits(v) + after|;
    }
  }

  /** Writes the fraction of `v / 10^prec` right before `end`, and returns the whole part. */
  method FmtFrac(buf: array<byte>, end: nat, v: nat, prec: nat) returns (w: nat, whole: nat)
    requires prec + 1 <= end <= buf.Length
    modifies buf
    ensures w + |Fraction(v, prec)| == end && buf[w..] == Fraction(v, prec) + old(buf[end..])
    ensures whole == v / Pow10(prec)
  {
    w := end;
    whole := v;
    ghost var after := buf[end..];
    var printing := false;
    for i := 0 to prec
      invariant w + |LowDigits(v, i)| == end && buf[w..] == LowDigits(v, i) + after
      invariant printing <==> LowDigits(v, i) != []
      invariant whole == v / Pow10(i)
    {
      var digit := whole % 10;
      printing := printing || digit != 0;
      if printing {
        AppendAssoc([digit + 48], LowDigits(v, i), after);
        w := Put(buf, w, digit + 48);
      }
      DivTen(v, Pow10(i));
      whole := whole / 10;
    }
    if printing {
      AppendAssoc([DOT], LowDigits(v, prec), after);
      w := Put(buf, w, DOT);
    }
  }

  lemma DivTen(v: nat, p: nat)
    requires p > 0
    ensures v / p / 10 == v / (10 * p)
  {
    var q := v / p;
    assert v == q * p + v % p;
    Distribute(q / 10 * 10, q % 10, p);
    Regroup(q / 10, 10, p);
    ProductOrder(q % 10, 9, p);
    DivModUnique(v, q / 10, q % 10 * p + v % p, 10 * p);
  }

  /** Durations below a second use one smaller unit. */
  method PrintSmall(buf: array<byte>, d: nat) returns (w: nat)
    requires 0 < d < SECOND && buf.Length == 32
    modifies buf
    ensures w <= 32 && buf[w..] == Print(d)
  {
    hide Digits, Fraction;
    SmallUnits();
    w := Put(buf, 32, S);
    var unit: byte, prec: nat;
    if d < MICROSECOND {
      unit, prec := N, 0;
    } else if d < MILLISECOND {
      unit, prec := U, 3;
    } else {
      unit, prec := M, 6;
    }
    w := Put(buf, w, unit);
    assert buf[w..] == [unit, S];
    var v;
    w, v := FmtFrac(buf, w, d, prec);
    DigitsLength(v, 3);
    w := FmtInt(buf, w, v);
    AppendAssoc(Digits(v), Fraction(d, prec), [unit, S]);
    NoFraction(d);
  }

  lemma NoFraction(d: nat)
    ensures Fraction(d, 0) == [] && Digits(d) + Fraction(d, 0) == Digits(d)
  {
  }

  lemma SmallUnits()
    ensures Pow10(0) == 1 && Pow10(3) == MICROSECOND && Pow10(6) == MILLISECOND
  {
    assert Pow10(5) == 100 * Pow10(3);
  }

  lemma LargeUnits()
    ensures Pow10(2) == 100 && Pow10(7) == 10_000_000 && Pow10(9) == SECOND
  {
    assert Pow10(4) == 100 * Pow10(2);
    assert Pow10(6) == 100 * Pow10(4);
    assert Pow10(8) == 100 * Pow10(6);
  }

  lemma Sixties(d: nat)
    ensures d / SECOND / 60 == d / MINUTE && d / MINUTE / 60 == d / HOUR
    ensures d / HOUR > 0 ==> d / MINUTE > 0
  {
  }

  /** Durations of a second and more use hours, minutes and seconds, leading zero units omitted. */
  method PrintLarge(buf: array<byte>, d: nat) returns (w: nat)
    requires SECOND <= d <= U64_MAX && buf.Length == 32
    modifies buf
    ensures w <= 32 && buf[w..] == Print(d)
  {
    LargeUnits();
    Sixties(d);
    hide Digits, Fraction;
    w := Put(buf, 32, S);
    var u: nat;
    w, u := FmtFrac(buf, w, d, 9);
    DigitsLength(u % 60, 2);
    w := FmtInt(buf, w, u % 60);
    AppendAssoc(Digits(u % 60), Fraction(d, 9), [S]);
    assert buf[w..] == SecondsText(d);
    u := u / 60;
    if u > 0 {
      w := PrintHoursMinutes(buf, w, u, d);
    }
  }

  /** The part in front of the seconds. */
  method PrintHoursMinutes(buf: array<byte>, end: nat, minutes: nat, ghost d: nat) returns (w: nat)
    requires buf.Length == 32 && 18 <= end <= 32 && 0 < minutes == d / MINUTE && d <= U64_MAX
    modifies buf
    ensures w <= end && buf[w..] == HoursText(d / HOUR) + MinutesText(d / MINUTE) + old(buf[end..])
  {
    hide Digits;
    LargeUnits();
    Sixties(d);
    ghost var tail := buf[end..];
    var u := minutes;
    w := Put(buf, end, M);
    DigitsLength(u % 60, 2);
    w := FmtInt(buf, w, u % 60);
    AppendAssoc(Digits(u % 60), [M], tail);
    assert buf[w..] == MinutesText(d / MINUTE) + tail;
    u := u / 60;
    if u > 0 {
      w := Put(buf, w, H);
      DigitsLength(u, 7);
      w := FmtInt(buf, w, u);
      AppendAssoc(Digits(u), [H], MinutesText(d / MINUTE) + tail);
      AppendAssoc(HoursText(u), MinutesText(d / MINUTE), tail);
    }
  }

  /** Prints the low 64 bits of a number of nanoseconds; the 32-byte buffer is always large enough. */
  method Duration(nanos: nat) returns (text: seq<byte>)
    ensures text == Print(nanos % (U64_MAX + 1))
  {
    var d := nanos % (U64_MAX + 1);
    var buf := new byte[32](_ => 0);
    var w;
    if d < SECOND {
      if d == 0 {
        return [ZERO, S];
      }
      w := PrintSmall(buf, d);
    } else {
      w := PrintLarge(buf, d);
    }
    return buf[w..];
  }
}
