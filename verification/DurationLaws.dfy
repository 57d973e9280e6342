/** What the duration parser promises: it is additive, and it undoes the printer. */
module DurationLaws {
  import opened Arith
  import opened Bytes
  import opened Decimal
  import opened DurationPrint
  import opened DurationParse

  // ----- appending text behind a component -----

  predicate StartsComponent(b: seq<byte>) {
    b == [] || EndsUnit(b[0])
  }

  lemma DigitRunAppend(a: seq<byte>, b: seq<byte>)
    requires DigitRun(a) < |a|
    ensures DigitRun(a + b) == DigitRun(a) && (a + b)[..DigitRun(a)] == a[..DigitRun(a)]
  {
    TakeAppend(a, b, DigitRun(a));
    RunCovers(a + b, DigitRun(a));
  }

  lemma LeadingIntAppend(a: seq<byte>, b: seq<byte>)
    requires LeadingInt(a).Parsed? && LeadingInt(a).value.1 != []
    ensures var (v, t) := LeadingInt(a).value; LeadingInt(a + b) == Parsed((v, t + b))
  {
    DigitRunAppend(a, b);
    DropAppend(a, b, DigitRun(a));
  }

  lemma {:induction false} KeptAppend(a: seq<byte>, b: seq<byte>, n: nat)
    requires n <= |a| && AllDigits(a[..n])
    ensures AllDigits((a + b)[..n]) && KeptDigits(a + b, n) == KeptDigits(a, n)
    decreases n
  {
    TakeAppend(a, b, n);
    if n > 0 {
      PrefixGrows(a, n - 1, n);
      TakeAppend(a, b, n - 1);
      KeptAppend(a, b, n - 1);
    }
  }

  lemma LeadingFractionAppend(a: seq<byte>, b: seq<byte>)
    requires LeadingFraction(a).Parsed? && LeadingFraction(a).value.2 != []
    ensures var (f, scale, t) := LeadingFraction(a).value; LeadingFraction(a + b) == Parsed((f, scale, t + b))
  {
    var n := DigitRun(a);
    DigitRunAppend(a, b);
    DropAppend(a, b, n);
    KeptAppend(a, b, n);
    TakeAppend(a, b, KeptDigits(a, n));
  }

  lemma {:induction false} UnitRunIs(s: seq<byte>, n: nat)
    requires n <= |s| && (forall i :: 0 <= i < n ==> !EndsUnit(s[i])) && (n < |s| ==> EndsUnit(s[n]))
    ensures UnitRun(s) == n
  {
    var m := UnitRun(s);
  }

  lemma ScaledAppend(fl: FloatScale, v: nat, f: nat, scale: nat, s: seq<byte>, b: seq<byte>)
    requires Scaled(fl, v, f, scale, s).Parsed? && StartsComponent(b)
    ensures var (x, rest) := Scaled(fl, v, f, scale, s).value;
            Scaled(fl, v, f, scale, s + b) == Parsed((x, rest + b))
  {
    var n := UnitRun(s);
    UnitRunIs(s + b, n);
    TakeAppend(s, b, n);
    DropAppend(s, b, n);
  }

  /** A component is read the same whatever component follows it. */
  lemma ComponentAppend(fl: FloatScale, a: seq<byte>, b: seq<byte>)
    requires a != [] && Component(fl, a).Parsed? && StartsComponent(b)
    ensures var (x, rest) := Component(fl, a).value;
            Component(fl, a + b) == Parsed((x, rest + b))
  {
    hide LeadingInt, LeadingFraction, Scaled;
    var (v, t) := LeadingInt(a).value;
    ScaledNonEmpty(fl, v, 0, 1, t);
    LeadingIntAppend(a, b);
    if t[0] == DOT {
      var (f, scale, rest) := LeadingFraction(t[1..]).value;
      ScaledNonEmpty(fl, v, f, scale, rest);
      LeadingFractionAppend(t[1..], b);
      DropAppend(t, b, 1);
      ScaledAppend(fl, v, f, scale, rest, b);
    } else {
      ScaledAppend(fl, v, 0, 1, t, b);
    }
  }

  lemma ScaledNonEmpty(fl: FloatScale, v: nat, f: nat, scale: nat, s: seq<byte>)
    ensures Scaled(fl, v, f, scale, s).Parsed? ==> s != []
  {
  }

  // ----- sums -----

  /** Text that parses goes on with what follows it. */
  lemma {:induction false} ComponentsAppend(fl: FloatScale, a: seq<byte>, b: seq<byte>, d: nat, x: nat)
    requires Components(fl, a, d) == Parsed(x) && StartsComponent(b)
    ensures Components(fl, a + b, d) == Components(fl, b, x)
    decreases |a|
  {
    hide Component;
    if a == [] {
      assert a + b == b;
    } else {
      var (v, rest) := Component(fl, a).value;
      ComponentRest(fl, a);
      ComponentAppend(fl, a, b);
      ComponentsAppend(fl, rest, b, d + v, x);
    }
  }

  /** The running total only adds up. */
  lemma {:induction false} ComponentsShift(fl: FloatScale, s: seq<byte>, d: nat, x: nat, k: nat)
    requires Components(fl, s, d) == Parsed(x) && d <= U64_MAX
    ensures d <= x <= U64_MAX
    ensures d + k <= U64_MAX ==>
              Components(fl, s, d + k) == if x + k <= U64_MAX then Parsed(x + k) else Overflows
    decreases |s|
  {
    hide Component;
    if s != [] {
      var (v, rest) := Component(fl, s).value;
      ComponentRest(fl, s);
      ComponentsShift(fl, rest, d + v, x, k);
    }
  }

  /** A list of components: no sign, not the lone zero. */
  predicate ComponentText(s: seq<byte>) {
    s != [] && s != [ZERO] && s[0] != PLUS && s[0] != MINUS
  }

  lemma ParseOfComponents(fl: FloatScale, s: seq<byte>)
    requires ComponentText(s)
    ensures Parse(fl, s) == Components(fl, s, 0)
    ensures Parse(fl, s).Parsed? ==> StartsComponent(s)
  {
  }

  /** The text after an optional plus sign. */
  function Unsigned(s: seq<byte>): (r: seq<byte>) {
    if s != [] && s[0] == PLUS then s[1..] else s
  }

  /** Additivity: two texts that parse, put together, parse to the sum, or overflow when it does not fit. */
  lemma ParseAdditive(fl: FloatScale, a: seq<byte>, b: seq<byte>, x: nat, y: nat)
    requires ComponentText(Unsigned(a)) && ComponentText(b)
    requires Parse(fl, a) == Parsed(x) && Parse(fl, b) == Parsed(y)
    ensures Parse(fl, a + b) == if x + y <= U64_MAX then Parsed(x + y) else Overflows
  {
    hide Components;
    var s := Unsigned(a);
    assert Unsigned(a + b) == s + b;
    ParseOfComponents(fl, s);
    ParseOfComponents(fl, b);
    assert Components(fl, s, 0) == Parsed(x);
    ComponentsAppend(fl, s, b, 0, x);
    ComponentsShift(fl, s, 0, x, 0);
    ComponentsShift(fl, b, 0, y, x);
  }

  // ----- numerals -----

  /** A unit name the parser knows, which no digit or dot interrupts. */
  predicate UnitName(u: seq<byte>) {
    u != [] && UnitRun(u) == |u| && UnitOf(u) > 0
  }

  lemma UnitNames()
    ensures UnitName([N, S]) && UnitName([U, S]) && UnitName([M, S]) && UnitName([S]) && UnitName([M]) && UnitName([H])
    ensures UnitOf([N, S]) == 1 && UnitOf([U, S]) == MICROSECOND && UnitOf([M, S]) == MILLISECOND
    ensures UnitOf([S]) == SECOND && UnitOf([M]) == MINUTE && UnitOf([H]) == HOUR
  {
    UnitRunIs([N, S], 2);
    UnitRunIs([U, S], 2);
    UnitRunIs([M, S], 2);
    UnitRunIs([S], 1);
    UnitRunIs([M], 1);
    UnitRunIs([H], 1);
  }

  lemma ScaledUnit(fl: FloatScale, v: nat, f: nat, scale: nat, u: seq<byte>)
    requires UnitName(u) && v * UnitOf(u) + (if f == 0 then 0 else fl(f, UnitOf(u), scale)) <= U64_MAX
    ensures Scaled(fl, v, f, scale, u)
         == Parsed((v * UnitOf(u) + (if f == 0 then 0 else fl(f, UnitOf(u), scale)), []))
  {
    assert u[..|u|] == u && u[|u|..] == [];
    QuotientAtLeast(v, UnitOf(u), U64_MAX);
  }

  lemma NumeralRun(n: nat, t: seq<byte>)
    requires t != [] && !IsDigit(t[0])
    ensures DigitRun(Digits(n) + t) == |Digits(n)|
    ensures (Digits(n) + t)[..|Digits(n)|] == Digits(n) && (Digits(n) + t)[|Digits(n)|..] == t
  {
    var s := Digits(n) + t;
    assert s[..|Digits(n)|] == Digits(n);
    RunCovers(s, |Digits(n)|);
  }

  /** A numeral and a unit. */
  lemma NumberComponent(fl: FloatScale, n: nat, u: seq<byte>)
    requires n <= INT_LIMIT && UnitName(u) && n * UnitOf(u) <= U64_MAX
    ensures Component(fl, Digits(n) + u) == Parsed((n * UnitOf(u), []))
  {
    hide Scaled, Digits, UnitOf, DigitRun;
    UnitStart(u);
    NumeralRun(n, u);
    DecValueOfDigits(n);
    ScaledUnit(fl, n, 0, 1, u);
  }

  /** Numerals within 48 of the largest 64-bit number are not refused but overflow the accumulator. */
  lemma OverflowingNumeral(fl: FloatScale, n: nat, u: seq<byte>)
    requires INT_LIMIT < n <= U64_MAX && UnitName(u)
    ensures Component(fl, Digits(n) + u) == Overflows
  {
    hide DigitRun, UnitOf;
    UnitStart(u);
    NumeralRun(n, u);
    var s, i := Digits(n) + u, |Digits(n)| - 1;
    assert s[..i] == Digits(n / 10) && s[i] == n % 10 + 48;
    DecValueOfDigits(n / 10);
    OverflowsAt(s, i);
  }

  /** All digits are kept as long as what is in front of the last one leaves room. */
  lemma {:induction false} KeepsNumeral(s: seq<byte>, n: nat)
    requires 0 < n <= |s| && AllDigits(s[..n]) && AllDigits(s[..n - 1]) && DecValue(s[..n - 1]) <= I64_MAX / 10
    ensures KeptDigits(s, n) == n
    decreases n
  {
    if n > 1 {
      PrefixGrows(s, n - 2, n - 1);
      KeepsNumeral(s, n - 1);
    }
  }

  lemma FractionOverflows(n: nat, u: seq<byte>)
    requires FRAC_LIMIT < n && n / 10 <= I64_MAX / 10 && u != [] && !IsDigit(u[0])
    ensures LeadingFraction(Digits(n) + u) == Overflows
  {
    hide DigitRun;
    var s, m := Digits(n) + u, |Digits(n)|;
    NumeralRun(n, u);
    assert s[..m - 1] == Digits(n / 10);
    DecValueOfDigits(n / 10);
    DecValueOfDigits(n);
    KeepsNumeral(s, m);
  }

  /**
   * Fractions overflow too: a fraction whose digits, read as a number, come within 48 of the largest signed
   * 64-bit number overflows the accumulator, whatever stands in front of it.
   */
  lemma OverflowingFraction(fl: FloatScale, v: nat, n: nat, u: seq<byte>)
    requires v <= INT_LIMIT && FRAC_LIMIT < n && n / 10 <= I64_MAX / 10 && UnitName(u)
    ensures Component(fl, Digits(v) + ([DOT] + Digits(n)) + u) == Overflows
  {
    hide Digits, DigitRun, UnitOf, Scaled, LeadingFraction;
    var t := [DOT] + (Digits(n) + u);
    AppendAssoc(Digits(v), [DOT] + Digits(n), u);
    AppendAssoc([DOT], Digits(n), u);
    NumeralRun(v, t);
    DecValueOfDigits(v);
    UnitStart(u);
    FractionOverflows(n, u);
    assert t[1..] == Digits(n) + u;
  }

  lemma UnitStart(u: seq<byte>)
    requires UnitName(u)
    ensures !IsDigit(u[0]) && u[0] != DOT
  {
  }

  lemma {:induction false} KeepsAll(s: seq<byte>, n: nat)
    requires n <= |s| && n <= 9 && AllDigits(s[..n])
    ensures KeptDigits(s, n) == n && DecValue(s[..n]) < Pow10(n) <= Pow10(9)
    decreases n
  {
    LargeUnits();
    if n > 0 {
      PrefixGrows(s, n - 1, n);
      assert s[..n][n - 1] == s[n - 1];
      PrefixStep(s, n - 1);
      KeepsAll(s, n - 1);
      Pow10Add(n, 9 - n);
      ProductOrder(1, Pow10(9 - n), Pow10(n));
    }
  }

  lemma FractionRead(fd: seq<byte>, u: seq<byte>)
    requires fd != [] && AllDigits(fd) && |fd| <= 9 && UnitName(u)
    ensures LeadingFraction(fd + u) == Parsed((DecValue(fd), Pow10(|fd|), u))
  {
    UnitStart(u);
    var s := fd + u;
    assert s[..|fd|] == fd && s[|fd|..] == u;
    RunCovers(s, |fd|);
    KeepsAll(s, |fd|);
    LargeUnits();
  }

  /** A numeral with a fraction of at most nine digits, and a unit. */
  lemma FractionComponent(fl: FloatScale, n: nat, fd: seq<byte>, u: seq<byte>)
    requires n <= INT_LIMIT && UnitName(u) && fd != [] && AllDigits(fd) && |fd| <= 9 && DecValue(fd) > 0
    requires n * UnitOf(u) + fl(DecValue(fd), UnitOf(u), Pow10(|fd|)) <= U64_MAX
    ensures Component(fl, Digits(n) + ([DOT] + fd) + u)
         == Parsed((n * UnitOf(u) + fl(DecValue(fd), UnitOf(u), Pow10(|fd|)), []))
  {
    hide Scaled, Digits, UnitOf, DigitRun, LeadingFraction;
    var t := [DOT] + (fd + u);
    AppendAssoc(Digits(n), [DOT] + fd, u);
    AppendAssoc([DOT], fd, u);
    NumeralRun(n, t);
    DecValueOfDigits(n);
    assert t[1..] == fd + u;
    FractionRead(fd, u);
    ScaledUnit(fl, n, DecValue(fd), Pow10(|fd|), u);
  }

  // ----- integer components -----

  datatype Quantity = Quantity(count: nat, unit: seq<byte>)

  predicate InRange(q: Quantity) {
    UnitName(q.unit) && q.count <= INT_LIMIT
  }

  function Nanos(q: Quantity): (n: nat) {
    q.count * UnitOf(q.unit)
  }

  function Render(qs: seq<Quantity>): (r: seq<byte>)
    ensures StartsComponent(r)
  {
    if qs == [] then [] else Digits(qs[0].count) + qs[0].unit + Render(qs[1..])
  }

  function Total(qs: seq<Quantity>): (n: nat) {
    if qs == [] then 0 else Nanos(qs[0]) + Total(qs[1..])
  }

  lemma QuantityComponent(fl: FloatScale, q: Quantity)
    requires InRange(q) && Nanos(q) <= U64_MAX
    ensures Component(fl, Digits(q.count) + q.unit) == Parsed((Nanos(q), []))
  {
    NumberComponent(fl, q.count, q.unit);
  }

  lemma {:induction false} ComponentsOfRender(fl: FloatScale, qs: seq<Quantity>, d: nat)
    requires forall i :: 0 <= i < |qs| ==> InRange(qs[i])
    requires d + Total(qs) <= U64_MAX
    ensures Components(fl, Render(qs), d) == Parsed(d + Total(qs))
    decreases |qs|
  {
    hide Component, Nanos, InRange, Digits;
    if qs != [] {
      var q, rest := qs[0], Render(qs[1..]);
      QuantityComponent(fl, q);
      ComponentAppend(fl, Digits(q.count) + q.unit, rest);
      assert [] + rest == rest;
      ComponentsOfRender(fl, qs[1..], d + Nanos(q));
    }
  }

  lemma RenderText(qs: seq<Quantity>)
    requires qs != [] && qs[0].unit != []
    ensures ComponentText(Render(qs))
  {
    var q, rest := qs[0], Render(qs[1..]);
    AppendAssoc(Digits(q.count), q.unit, rest);
    DigitStarts(q.count, q.unit + rest);
    assert |Render(qs)| >= 2;
  }

  /** Whole-number components, any units in any order, give the sum of value times unit. */
  lemma ParseOfRender(fl: FloatScale, qs: seq<Quantity>)
    requires qs != [] && (forall i :: 0 <= i < |qs| ==> InRange(qs[i]))
    requires Total(qs) <= U64_MAX
    ensures Parse(fl, Render(qs)) == Parsed(Total(qs))
  {
    hide *;
    assert qs[0].unit != [] by { NonEmptyUnit(qs[0]); }
    RenderText(qs);
    ComponentsOfRender(fl, qs, 0);
    ParseOfComponents(fl, Render(qs));
  }

  lemma NonEmptyUnit(q: Quantity)
    requires InRange(q)
    ensures q.unit != []
  {
  }

  // ----- the printer -----

  /** The parts of a printed duration before the fraction add up to it. */
  lemma Decompose(d: nat)
    ensures d == d / HOUR * HOUR + d / MINUTE % 60 * MINUTE + d / SECOND % 60 * SECOND + d % SECOND
  {
    Sixties(d);
  }

  /** The fraction digits `fd` stand for `rem` nanoseconds of a unit of `10^prec`. */
  predicate StandsFor(fd: seq<byte>, prec: nat, rem: nat) {
    && |fd| <= prec <= 9 && AllDigits(fd)
    && DecValue(fd) * Pow10(prec - |fd|) == rem < Pow10(prec)
    && (fd != [] ==> DecValue(fd) > 0)
  }

  lemma FractionNanos(fl: FloatScale, fd: seq<byte>, prec: nat, rem: nat, u: seq<byte>)
    requires Exact(fl) && StandsFor(fd, prec, rem) && fd != [] && UnitOf(u) == Pow10(prec)
    ensures DecValue(fd) > 0 && |fd| <= 9 && fl(DecValue(fd), UnitOf(u), Pow10(|fd|)) == rem
  {
    hide Pow10, DecValue, Exact, UnitOf;
    ExactFraction(fl, DecValue(fd), prec, |fd|, rem);
  }

  lemma NoFractionNanos(prec: nat, rem: nat)
    requires StandsFor([], prec, rem)
    ensures rem == 0
  {
    assert DecValue([]) == 0;
    hide Pow10, DecValue;
  }

  /** A number, fraction digits and a unit. */
  lemma PrintedDigits(fl: FloatScale, n: nat, fd: seq<byte>, prec: nat, rem: nat, u: seq<byte>)
    requires Exact(fl) && UnitName(u) && UnitOf(u) == Pow10(prec) && StandsFor(fd, prec, rem) && AllDigits(fd)
    requires n <= INT_LIMIT && n * UnitOf(u) + rem <= U64_MAX
    ensures Component(fl, Digits(n) + (if fd == [] then [] else [DOT] + fd) + u) == Parsed((n * UnitOf(u) + rem, []))
  {
    hide Component, UnitOf, Digits, Pow10, DecValue, Exact, StandsFor;
    if fd == [] {
      NoFractionNanos(prec, rem);
      assert Digits(n) + [] == Digits(n);
      NumberComponent(fl, n, u);
    } else {
      FractionNanos(fl, fd, prec, rem, u);
      FractionComponent(fl, n, fd, u);
    }
  }

  /** A number with the printed fraction of `d`, over a unit of `10^prec` nanoseconds. */
  lemma PrintedComponent(fl: FloatScale, n: nat, d: nat, prec: nat, u: seq<byte>)
    requires Exact(fl) && UnitName(u) && UnitOf(u) == Pow10(prec) && prec <= 9
    requires n <= INT_LIMIT && n * UnitOf(u) + d % Pow10(prec) <= U64_MAX
    ensures Component(fl, Digits(n) + Fraction(d, prec) + u) == Parsed((n * UnitOf(u) + d % Pow10(prec), []))
  {
    hide Component, UnitOf, Digits, Pow10, DecValue, LowDigits, Exact, StandsFor;
    LowDigitsStand(d, prec);
    PrintedDigits(fl, n, LowDigits(d, prec), prec, d % Pow10(prec), u);
  }

  lemma LowDigitsStand(d: nat, prec: nat)
    requires prec <= 9
    ensures StandsFor(LowDigits(d, prec), prec, d % Pow10(prec))
  {
    hide Pow10, DecValue, LowDigits;
    LowDigitsValue(d, prec);
    if LowDigits(d, prec) != [] {
      NonZeroFraction(d, prec);
    }
  }

  /** Stripped digits, when there are any, are not zero. */
  lemma {:induction false} NonZeroFraction(v: nat, n: nat)
    requires LowDigits(v, n) != []
    ensures DecValue(LowDigits(v, n)) > 0
  {
    var t, d := LowDigits(v, n - 1), DigitAt(v, n - 1);
    DecValueCons(d + 48, t);
    if t != [] {
      NonZeroFraction(v, n - 1);
      ProductOrder(0, d, Pow10(|t|));
    } else {
      assert Pow10(|t|) == 1;
    }
  }

  /** The float expression is exact on the digits of a printed fraction. */
  lemma ExactFraction(fl: FloatScale, f: nat, prec: nat, m: nat, rem: nat)
    requires Exact(fl) && m <= prec <= 9 && f * Pow10(prec - m) == rem < Pow10(prec)
    ensures fl(f, Pow10(prec), Pow10(m)) == rem
  {
    hide Pow10, Exact;
    Pow10Quotient(m, prec);
    LargeUnits();
    ProductOrder(1, Pow10(prec - m), f);
    ExactAt(fl, f, Pow10(prec), Pow10(m));
  }

  /** Powers of ten up to the ninth: they are ordered and divide each other. */
  lemma Pow10Quotient(m: nat, prec: nat)
    requires m <= prec <= 9
    ensures Pow10(m) <= Pow10(prec) <= Pow10(9)
    ensures Pow10(prec) / Pow10(m) == Pow10(prec - m) && Pow10(prec) % Pow10(m) == 0
  {
    hide Pow10;
    Pow10Add(prec - m, m);
    ProductOrder(1, Pow10(prec - m), Pow10(m));
    DivModUnique(Pow10(prec), Pow10(prec - m), 0, Pow10(m));
    Pow10Add(9 - prec, prec);
    ProductOrder(1, Pow10(9 - prec), Pow10(prec));
  }

  lemma ExactAt(fl: FloatScale, f: nat, unit: nat, scale: nat)
    requires Exact(fl) && 0 < scale <= unit <= TWO_53 && unit % scale == 0
    requires f <= TWO_53 && f * (unit / scale) <= TWO_53
    ensures fl(f, unit, scale) == f * (unit / scale)
  {
  }

  lemma PrintedNumber(fl: FloatScale, n: nat, u: seq<byte>, rest: seq<byte>, d: nat)
    requires UnitName(u) && n <= INT_LIMIT && d + n * UnitOf(u) <= U64_MAX && StartsComponent(rest)
    ensures Components(fl, Digits(n) + u + rest, d) == Components(fl, rest, d + n * UnitOf(u))
  {
    hide Component, UnitOf, Digits;
    NumberComponent(fl, n, u);
    ComponentAppend(fl, Digits(n) + u, rest);
    assert [] + rest == rest;
  }

  lemma DigitStarts(n: nat, t: seq<byte>)
    ensures IsDigit((Digits(n) + t)[0]) && StartsComponent(Digits(n) + t)
  {
    assert (Digits(n) + t)[0] == Digits(n)[0];
  }

  lemma PrintedHours(fl: FloatScale, hours: nat, rest: seq<byte>)
    requires hours * HOUR <= U64_MAX && StartsComponent(rest)
    ensures Components(fl, HoursText(hours) + rest, 0) == Components(fl, rest, hours * HOUR)
  {
    hide Components;
    UnitNames();
    if hours == 0 {
      assert HoursText(hours) + rest == rest;
    } else {
      QuotientAtLeast(hours, HOUR, U64_MAX);
      PrintedNumber(fl, hours, [H], rest, 0);
    }
  }

  lemma PrintedMinutes(fl: FloatScale, minutes: nat, rest: seq<byte>, d: nat)
    requires d + minutes % 60 * MINUTE <= U64_MAX && StartsComponent(rest)
    ensures Components(fl, MinutesText(minutes) + rest, d) == Components(fl, rest, d + minutes % 60 * MINUTE)
  {
    hide Components;
    UnitNames();
    if minutes == 0 {
      assert MinutesText(minutes) + rest == rest;
    } else {
      PrintedNumber(fl, minutes % 60, [M], rest, d);
    }
  }

  lemma PrintedSeconds(fl: FloatScale, d: nat, before: nat)
    requires Exact(fl) && before + d / SECOND % 60 * SECOND + d % SECOND <= U64_MAX
    ensures Components(fl, SecondsText(d), before) == Parsed(before + d / SECOND % 60 * SECOND + d % SECOND)
  {
    hide Component, UnitOf, Digits, Fraction;
    UnitNames();
    LargeUnits();
    PrintedComponent(fl, d / SECOND % 60, d, 9, [S]);
  }

  lemma ParseLarge(fl: FloatScale, d: nat)
    requires Exact(fl) && SECOND <= d <= U64_MAX
    ensures Components(fl, Print(d), 0) == Parsed(d)
  {
    hide Components, Digits, Fraction, HoursText, MinutesText, SecondsText;
    Decompose(d);
    var secs := SecondsText(d);
    var mins := MinutesText(d / MINUTE) + secs;
    AppendAssoc(HoursText(d / HOUR), MinutesText(d / MINUTE), secs);
    PrintedStarts(d);
    PrintedHours(fl, d / HOUR, mins);
    PrintedMinutes(fl, d / MINUTE, secs, d / HOUR * HOUR);
    PrintedSeconds(fl, d, d / HOUR * HOUR + d / MINUTE % 60 * MINUTE);
  }

  lemma PrintedStarts(d: nat)
    ensures IsDigit(SecondsText(d)[0]) && IsDigit((MinutesText(d / MINUTE) + SecondsText(d))[0])
  {
    AppendAssoc(Digits(d / SECOND % 60), Fraction(d, 9), [S]);
    DigitStarts(d / SECOND % 60, Fraction(d, 9) + [S]);
    if d / MINUTE != 0 {
      AppendAssoc(Digits(d / MINUTE % 60), [M], SecondsText(d));
      DigitStarts(d / MINUTE % 60, [M] + SecondsText(d));
    } else {
      assert MinutesText(0) + SecondsText(d) == SecondsText(d);
    }
  }

  lemma ParseSmall(fl: FloatScale, d: nat)
    requires Exact(fl) && d < SECOND
    ensures Components(fl, Print(d), 0) == Parsed(d)
  {
    hide Component, Digits, Fraction;
    UnitNames();
    SmallUnits();
    LargeUnits();
    if d == 0 {
      ZeroText();
      NumberComponent(fl, 0, [S]);
    } else if d < MICROSECOND {
      NumberComponent(fl, d, [N, S]);
    } else if d < MILLISECOND {
      PrintedComponent(fl, d / MICROSECOND, d, 3, [U, S]);
    } else {
      PrintedComponent(fl, d / MILLISECOND, d, 6, [M, S]);
    }
  }

  lemma ZeroText()
    ensures Print(0) == Digits(0) + [S]
  {
  }

  /** The printed text starts with a digit and is longer than one byte. */
  lemma PrintedText(d: nat)
    ensures ComponentText(Print(d))
  {
    if d == 0 {
      ZeroText();
    } else if d < MICROSECOND {
      DigitStarts(d, [N, S]);
    } else if d < MILLISECOND {
      AppendAssoc(Digits(d / MICROSECOND), Fraction(d, 3), [U, S]);
      DigitStarts(d / MICROSECOND, Fraction(d, 3) + [U, S]);
    } else if d < SECOND {
      AppendAssoc(Digits(d / MILLISECOND), Fraction(d, 6), [M, S]);
      DigitStarts(d / MILLISECOND, Fraction(d, 6) + [M, S]);
    } else {
      LargeText(d);
    }
  }

  lemma LargeText(d: nat)
    requires SECOND <= d
    ensures ComponentText(Print(d))
  {
    hide Fraction;
    AppendAssoc(HoursText(d / HOUR), MinutesText(d / MINUTE), SecondsText(d));
    var rest := MinutesText(d / MINUTE) + SecondsText(d);
    PrintedStarts(d);
    assert |SecondsText(d)| >= 2;
    if d / HOUR == 0 {
      assert Print(d) == rest;
    } else {
      AppendAssoc(Digits(d / HOUR), [H], rest);
      DigitStarts(d / HOUR, [H] + rest);
    }
  }

  /** Round trip: every 64-bit duration survives printing and parsing. */
  lemma ParseOfPrint(fl: FloatScale, d: nat)
    requires Exact(fl) && d <= U64_MAX
    ensures Parse(fl, Print(d)) == Parsed(d)
  {
    hide Components, Print;
    PrintedText(d);
    ParseOfComponents(fl, Print(d));
    if d < SECOND {
      ParseSmall(fl, d);
    } else {
      ParseLarge(fl, d);
    }
  }

  /** The round trip through the two methods: it gives the duration back if and only if that has 64 bits. */
  method PrintThenParse(fl: FloatScale, d: nat) returns (text: seq<byte>, r: Parsed<nat>)
    requires Exact(fl)
    ensures r == Parsed(d % (U64_MAX + 1))
    ensures r == Parsed(d) <==> d <= U64_MAX
  {
    hide Print, Parse, Exact;
    text := Duration(d);
    r := ParseDuration(fl, text);
    ParseOfPrint(fl, d % (U64_MAX + 1));
  }
}
