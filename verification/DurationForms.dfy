/** The printed form of a duration, letter by letter: there is one canonical text for each number of nanoseconds. */
module DurationForms {
  import opened Arith
  import opened Bytes
  import opened Decimal
  import opened DurationPrint

  /** Below a second one unit of 1, 1000 or 1000000 nanoseconds; from a second on hours, minutes and seconds. */
  datatype Form =
    | Nothing
    | Small(whole: nat, fraction: seq<byte>, unit: nat)
    | Large(hours: nat, minutes: nat, seconds: nat, fraction: seq<byte>)

  /** Fraction digits without a zero at the end. */
  predicate Stripped(fd: seq<byte>) {
    AllDigits(fd) && (fd != [] ==> fd[|fd| - 1] != 48)
  }

  predicate Canonical(f: Form) {
    match f
    case Nothing => true
    case Small(whole, fraction, unit) => 1 <= whole <= 999 && unit <= 2 && |fraction| <= 3 * unit && Stripped(fraction)
    case Large(hours, minutes, seconds, fraction) =>
      minutes < 60 && seconds < 60 && hours + minutes + seconds > 0 && |fraction| <= 9 && Stripped(fraction)
  }

  function Dotted(fd: seq<byte>): (r: seq<byte>) {
    if fd == [] then [] else [46] + fd
  }

  /** ASCII: 46 is the dot, 48 zero, and 110, 117, 109, 115, 104 are n, u, m, s and h. Leading zero units are left out. */
  function Text(f: Form): (r: seq<byte>)
    requires Canonical(f)
  {
    match f
    case Nothing => [48, 115]
    case Small(whole, fraction, unit) =>
      Digits(whole) + Dotted(fraction) + (if unit == 0 then [110, 115] else if unit == 1 then [117, 115] else [109, 115])
    case Large(hours, minutes, seconds, fraction) =>
      (if hours == 0 then [] else Digits(hours) + [104])
      + (if hours == 0 && minutes == 0 then [] else Digits(minutes) + [109])
      + (Digits(seconds) + Dotted(fraction) + [115])
  }

  function Nanos(f: Form): (n: nat)
    requires Canonical(f)
  {
    match f
    case Nothing => 0
    case Small(whole, fraction, unit) =>
      whole * (if unit == 0 then 1 else if unit == 1 then 1_000 else 1_000_000)
      + DecValue(fraction) * Pow10(3 * unit - |fraction|)
    case Large(hours, minutes, seconds, fraction) =>
      hours * 3_600_000_000_000 + minutes * 60_000_000_000 + seconds * 1_000_000_000
      + DecValue(fraction) * Pow10(9 - |fraction|)
  }

  // ----- fraction digits -----

  lemma {:induction false} DecValueBound(s: seq<byte>)
    requires AllDigits(s)
    ensures DecValue(s) < Pow10(|s|)
  {
    if s != [] {
      DecValueBound(s[..|s| - 1]);
    }
  }

  /** Padded to `prec` places, digits stand for less than the next power of ten. */
  lemma PaddedBound(fd: seq<byte>, prec: nat)
    requires AllDigits(fd) && |fd| <= prec
    ensures 0 <= DecValue(fd) * Pow10(prec - |fd|) < Pow10(prec)
  {
    DecValueBound(fd);
    Pow10Add(|fd|, prec - |fd|);
    hide Pow10, DecValue;
    ProductOrder(DecValue(fd) + 1, Pow10(|fd|), Pow10(prec - |fd|));
    Distribute(DecValue(fd), 1, Pow10(prec - |fd|));
    ProductOrder(0, DecValue(fd), Pow10(prec - |fd|));
  }

  /** Stripped digits are determined by the number they stand for. */
  lemma {:induction false} StrippedUnique(fd: seq<byte>, prec: nat, v: nat)
    requires Stripped(fd) && |fd| <= prec && DecValue(fd) * Pow10(prec - |fd|) == v % Pow10(prec)
    ensures LowDigits(v, prec) == fd
    decreases prec
  {
    if prec > 0 {
      var p := Pow10(prec - 1);
      assert Pow10(prec) == 10 * p;
      if fd == [] {
        assert DecValue(fd) == 0;
        assert v % (10 * p) == 0;
        LeadingDigit(v, p, 0, 0);
        assert DecValue(fd) * Pow10(prec - 1) == 0;
        StrippedUnique(fd, prec - 1, v);
      } else {
        var c, t := fd[0], fd[1..];
        assert fd == [c] + t;
        FrontDigit(fd, prec, v);
        StrippedUnique(t, prec - 1, v);
      }
    }
  }

  /** The digit in front and what is left of a remainder. */
  lemma LeadingDigit(v: nat, p: nat, d: nat, rem: nat)
    requires 0 < p && d < 10 && rem < p && v % (10 * p) == d * p + rem
    ensures v / p % 10 == d && v % p == rem
  {
    ModSplit(v, p);
    var m, e := v % (10 * p), v / p % 10;
    DivModUnique(m, d, rem, p);
    DivModUnique(m, e, v % p, p);
  }

  lemma FrontDigit(fd: seq<byte>, prec: nat, v: nat)
    requires AllDigits(fd) && 0 < |fd| <= prec && DecValue(fd) * Pow10(prec - |fd|) == v % Pow10(prec)
    ensures DigitAt(v, prec - 1) == fd[0] - 48
    ensures AllDigits(fd[1..]) && DecValue(fd[1..]) * Pow10(prec - 1 - |fd[1..]|) == v % Pow10(prec - 1)
  {
    var c, t, p := fd[0], fd[1..], Pow10(prec - 1);
    assert fd == [c] + t && Pow10(prec) == 10 * p;
    DecValueCons(c, t);
    PaddedBound(t, prec - 1);
    Pow10Add(|t|, prec - 1 - |t|);
    hide Pow10, DecValue;
    var pad := Pow10(prec - 1 - |t|);
    Padded(c as int - 48, Pow10(|t|), DecValue(t), pad);
    LeadingDigit(v, p, c as int - 48, DecValue(t) * pad);
  }

  lemma {:induction false} LowDigitsStripped(v: nat, n: nat)
    ensures Stripped(LowDigits(v, n))
  {
    if n > 0 {
      LowDigitsStripped(v, n - 1);
    }
  }

  lemma FractionText(fd: seq<byte>, prec: nat, v: nat)
    requires Stripped(fd) && |fd| <= prec && DecValue(fd) * Pow10(prec - |fd|) == v % Pow10(prec)
    ensures Fraction(v, prec) == Dotted(fd)
  {
    StrippedUnique(fd, prec, v);
  }

  // ----- every canonical form is the printed text of its value -----

  lemma SmallText(f: Form)
    requires Canonical(f) && f.Small?
    ensures 0 < Nanos(f) < 1_000_000_000 && Text(f) == Print(Nanos(f))
  {
    SmallUnits();
    hide Digits, DecValue, Pow10, LowDigits;
    var d, prec := Nanos(f), 3 * f.unit;
    var rem := DecValue(f.fraction) * Pow10(prec - |f.fraction|);
    PaddedBound(f.fraction, prec);
    DivModUnique(d, f.whole, rem, Pow10(prec));
    FractionText(f.fraction, prec, d);
    if f.unit == 0 {
      NoFraction(d);
    }
  }

  lemma LargeText(f: Form)
    requires Canonical(f) && f.Large?
    ensures 1_000_000_000 <= Nanos(f) && Text(f) == Print(Nanos(f))
  {
    LargeUnits();
    hide Digits, DecValue, Pow10, LowDigits, Fraction;
    var d := Nanos(f);
    var rem := DecValue(f.fraction) * Pow10(9 - |f.fraction|);
    PaddedBound(f.fraction, 9);
    LargeParts(d, f.hours, f.minutes, f.seconds, rem);
    FractionText(f.fraction, 9, d);
  }

  lemma LargeParts(d: nat, h: nat, m: nat, s: nat, rem: nat)
    requires d == h * 3_600_000_000_000 + m * 60_000_000_000 + s * 1_000_000_000 + rem
    requires m < 60 && s < 60 && rem < 1_000_000_000
    ensures d / HOUR == h && d / MINUTE == 60 * h + m && d / MINUTE % 60 == m
    ensures d / SECOND % 60 == s && d % SECOND == rem
  {
    DivModUnique(d, h, m * 60_000_000_000 + s * 1_000_000_000 + rem, HOUR);
    DivModUnique(d, 60 * h + m, s * 1_000_000_000 + rem, MINUTE);
    DivModUnique(d, 3600 * h + 60 * m + s, rem, SECOND);
    DivModUnique(60 * h + m, h, m, 60);
    DivModUnique(3600 * h + 60 * m + s, 60 * h + m, s, 60);
  }

  /** A canonical text for `d` nanoseconds is the printed one. */
  lemma CanonicalUnique(f: Form)
    requires Canonical(f)
    ensures Text(f) == Print(Nanos(f))
  {
    hide Digits, Text, Nanos;
    match f
    case Nothing =>
      ZeroText();
    case Small(_, _, _) =>
      SmallText(f);
    case Large(_, _, _, _) =>
      LargeText(f);
  }

  lemma ZeroText()
    ensures Text(Nothing) == Print(Nanos(Nothing)) == [48, 115]
  {
  }

  /** And there is one for every number: the printed text is canonical. */
  lemma PrintIsCanonical(d: nat) returns (f: Form)
    ensures Canonical(f) && Nanos(f) == d && Text(f) == Print(d)
  {
    hide Digits, Text, DecValue, LowDigits, Print;
    SmallUnits();
    LargeUnits();
    hide Pow10;
    if d == 0 {
      f := Nothing;
    } else if d < SECOND {
      var unit := if d < MICROSECOND then 0 else if d < MILLISECOND then 1 else 2;
      LowDigitsStripped(d, 3 * unit);
      LowDigitsValue(d, 3 * unit);
      f := Small(d / Pow10(3 * unit), LowDigits(d, 3 * unit), unit);
    } else {
      LowDigitsStripped(d, 9);
      LowDigitsValue(d, 9);
      Sixties(d);
      f := Large(d / HOUR, d / MINUTE % 60, d / SECOND % 60, LowDigits(d, 9));
    }
    CanonicalUnique(f);
  }
}
