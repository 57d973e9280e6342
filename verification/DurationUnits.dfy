/** The units and the errors of the duration parser, with their bytes written out. */
module DurationUnits {
  import opened Arith
  import opened Bytes
  import opened Decimal
  import opened DurationPrint
  import opened DurationParse
  import opened DurationLaws

  /** ns, us, the two ways to write a micro sign, ms, s, m, h, d and w, as UTF-8. */
  const SPELLINGS: seq<seq<byte>> :=
    [[110, 115], [117, 115], [194, 181, 115], [206, 188, 115], [109, 115], [115], [109], [104], [100], [119]]

  /** The nanoseconds of each. */
  const SIZES: seq<nat> :=
    [1, 1_000, 1_000, 1_000, 1_000_000, 1_000_000_000,
     60_000_000_000, 3_600_000_000_000, 86_400_000_000_000, 604_800_000_000_000]

  const LARGEST: nat := 18446744073709551615

  /** No digit or dot in it. */
  predicate Letters(u: seq<byte>) {
    forall i :: 0 <= i < |u| ==> !(u[i] == 46 || 48 <= u[i] <= 57)
  }

  lemma SpellingSize(i: nat)
    requires i < 10
    ensures SPELLINGS[i] != [] && Letters(SPELLINGS[i]) && UnitOf(SPELLINGS[i]) == SIZES[i] > 0
  {
  }

  /** No other spelling has a size. */
  lemma UnitsExactly(u: seq<byte>)
    ensures UnitOf(u) > 0 <==> u in SPELLINGS
  {
    if UnitOf(u) > 0 {
      assert u == SPELLINGS[0] || u == SPELLINGS[1] || u == SPELLINGS[2] || u == SPELLINGS[3] || u == SPELLINGS[4]
          || u == SPELLINGS[5] || u == SPELLINGS[6] || u == SPELLINGS[7] || u == SPELLINGS[8] || u == SPELLINGS[9];
    }
    if u in SPELLINGS {
      var i :| 0 <= i < |SPELLINGS| && SPELLINGS[i] == u;
      SpellingSize(i);
    }
  }

  lemma RunOfLetters(u: seq<byte>)
    requires Letters(u)
    ensures UnitRun(u) == |u|
  {
    UnitRunIs(u, |u|);
  }

  // ----- texts of one component -----

  /** Parsing a text of one component that nothing follows. */
  lemma ParseOfOne(fl: FloatScale, s: seq<byte>)
    requires s != [] && s != [48] && s[0] != 43 && s[0] != 45
    requires Component(fl, s).Parsed? ==> Component(fl, s).value.1 == [] && Component(fl, s).value.0 <= LARGEST
    ensures Parse(fl, s) == match Component(fl, s)
                            case Parsed((v, _)) => Parsed(v)
                            case ParseFailed(e) => ParseFailed(e)
                            case Overflows => Overflows
  {
    hide Component;
    if Component(fl, s).Parsed? {
      var (v, rest) := Component(fl, s).value;
      assert Components(fl, rest, 0 + v) == Parsed(v);
      assert Components(fl, s, 0) == Parsed(v);
    } else {
      assert Component(fl, s).Overflows? ==> Components(fl, s, 0) == Overflows;
      assert Component(fl, s).ParseFailed? ==> Components(fl, s, 0) == ParseFailed(Component(fl, s).error);
    }
  }

  /** What a numeral in front of `t` leads to. */
  lemma NumeralThen(fl: FloatScale, n: nat, t: seq<byte>)
    requires n <= LARGEST - 48 && (t != [] ==> !IsDigit(t[0]) && t[0] != DOT)
    ensures Component(fl, Digits(n) + t) == Scaled(fl, n, 0, 1, t)
    ensures IsDigit((Digits(n) + t)[0])
  {
    hide Scaled, Digits, DigitRun;
    var s := Digits(n) + t;
    assert s[..|Digits(n)|] == Digits(n) && s[|Digits(n)|..] == t;
    RunCovers(s, |Digits(n)|);
    DecValueOfDigits(n);
    assert IsDigit(s[..|Digits(n)|][0]);
  }

  /** A number and a unit: each spelling counts its own nanoseconds, and a number too large for it is refused. */
  lemma WholeUnits(fl: FloatScale, n: nat, i: nat)
    requires n <= LARGEST - 48 && i < 10
    ensures Parse(fl, Digits(n) + SPELLINGS[i]) ==
              if n * SIZES[i] <= LARGEST then Parsed(n * SIZES[i]) else ParseFailed(InvalidDuration)
  {
    SpellingSize(i);
    var u, size := SPELLINGS[i], SIZES[i];
    hide Component, Scaled, Digits, UnitOf, DigitRun, Components;
    RunOfLetters(u);
    assert !IsDigit(u[0]) && u[0] != DOT;
    NumeralThen(fl, n, u);
    ScaledWhole(fl, n, u);
    if n * size <= LARGEST {
      Fits(n, size, LARGEST);
    } else {
      TooMany(n, size, LARGEST);
    }
    ParseOfOne(fl, Digits(n) + u);
  }

  lemma ScaledWhole(fl: FloatScale, n: nat, u: seq<byte>)
    requires u != [] && UnitRun(u) == |u|
    ensures Scaled(fl, n, 0, 1, u) ==
              if UnitOf(u) == 0 then ParseFailed(UnknownUnit)
              else if n > LARGEST / UnitOf(u) then ParseFailed(InvalidDuration)
              else Parsed((n * UnitOf(u), []))
  {
    hide UnitOf;
    assert u[..|u|] == u && u[|u|..] == [];
  }

  lemma Fits(n: nat, size: nat, most: nat)
    requires 0 < size && n * size <= most
    ensures n <= most / size
  {
    QuotientAtLeast(n, size, most);
  }

  lemma TooMany(n: nat, size: nat, most: nat)
    requires 0 < size && n * size > most
    ensures n > most / size
  {
    assert most == (most / size) * size + most % size;
    if n <= most / size {
      ProductOrder(n, most / size, size);
    }
  }

  /** A number and letters that are no spelling of a unit. */
  lemma UnknownUnits(fl: FloatScale, n: nat, u: seq<byte>)
    requires n <= LARGEST - 48 && u != [] && Letters(u) && u !in SPELLINGS
    ensures Parse(fl, Digits(n) + u) == ParseFailed(UnknownUnit)
  {
    hide Component, Scaled, Digits, UnitOf, DigitRun, Components;
    UnitsExactly(u);
    RunOfLetters(u);
    NumeralThen(fl, n, u);
    ScaledWhole(fl, n, u);
    ParseOfOne(fl, Digits(n) + u);
  }

  /** A number without a unit; only the lone zero is a duration. */
  lemma NoUnits(fl: FloatScale, n: nat)
    requires n <= LARGEST - 48
    ensures Parse(fl, Digits(n)) == if n == 0 then Parsed(0) else ParseFailed(MissingUnit)
  {
    hide Component, DigitRun, Components;
    if n == 0 {
      assert Digits(n) == [48];
    } else {
      var s := Digits(n);
      assert s + [] == s;
      NumeralThen(fl, n, []);
      assert UnitRun([]) == 0;
      assert n >= 10 ==> |s| > 1;
      ParseOfOne(fl, s);
    }
  }

  // ----- numerals too large -----

  /** Some digits at the front of `n` stand for a number just beyond the limit. */
  ghost predicate JustBeyond(n: nat) {
    exists k :: 0 <= k < |Digits(n)| && 18446744073709551567 < Front(n, k) <= 18446744073709551619
  }

  /** A larger numeral is refused, or overflows where the digits so far are just beyond the limit. */
  lemma LargeNumerals(fl: FloatScale, n: nat, t: seq<byte>)
    requires n > 18446744073709551567 && (t != [] ==> !(48 <= t[0] <= 57))
    ensures Parse(fl, Digits(n) + t) == if JustBeyond(n) then Overflows else ParseFailed(BadInteger)
  {
    hide Component, Digits, DigitRun, Components, JustBeyond;
    var s := Digits(n) + t;
    LargeInt(n, t);
    assert IsDigit(Digits(n)[0]) && s[0] == Digits(n)[0];
    ComponentOfFailure(fl, s);
    NumeralLength(n);
    ParseOfOne(fl, s);
  }

  lemma NumeralLength(n: nat)
    requires n >= 10
    ensures |Digits(n)| > 1
  {
  }

  lemma ComponentOfFailure(fl: FloatScale, s: seq<byte>)
    requires s != [] && IsDigit(s[0]) && !LeadingInt(s).Parsed?
    ensures Component(fl, s) == if LeadingInt(s).Overflows? then Overflows else ParseFailed(LeadingInt(s).error)
  {
    hide LeadingInt, LeadingFraction, Scaled;
  }

  lemma LargeInt(n: nat, t: seq<byte>)
    requires n > 18446744073709551567 && (t != [] ==> !(48 <= t[0] <= 57))
    ensures LeadingInt(Digits(n) + t) == if JustBeyond(n) then Overflows else ParseFailed(BadInteger)
  {
    var s, len := Digits(n) + t, |Digits(n)|;
    assert s[..len] == Digits(n);
    hide Digits, DigitRun, JustBeyond, StepOverflows;
    RunCovers(s, len);
    DecValueOfDigits(n);
    BeyondOverflows(n, t);
  }

  lemma BeyondOverflows(n: nat, t: seq<byte>)
    ensures AllDigits((Digits(n) + t)[..|Digits(n)|])
    ensures StepOverflows(Digits(n) + t, |Digits(n)|) <==> JustBeyond(n)
  {
    hide Digits, Front, DecValue;
    var s, len := Digits(n) + t, |Digits(n)|;
    assert s[..len] == Digits(n);
    if StepOverflows(s, len) {
      var i :| 0 <= i < len && DecValue(s[..i]) <= U64_MAX / 10 && 10 * DecValue(s[..i]) + s[i] as int > U64_MAX;
      StepIsFront(n, t, i);
    }
    if JustBeyond(n) {
      var k :| 0 <= k < len && 18446744073709551567 < Front(n, k) <= 18446744073709551619;
      StepIsFront(n, t, len - 1 - k);
    }
  }

  /** The digits up to the `i`-th are the number without the others. */
  lemma StepIsFront(n: nat, t: seq<byte>, i: nat)
    requires i < |Digits(n)|
    ensures var s, p := Digits(n) + t, Front(n, |Digits(n)| - 1 - i);
            AllDigits(s[..i]) && 10 * DecValue(s[..i]) + s[i] as int == p + 48
  {
    hide Digits;
    var s, k := Digits(n) + t, |Digits(n)| - 1 - i;
    assert s[..i] == Digits(n)[..i];
    assert s[i] == Digits(n)[i];
    assert s[..i + 1] == Digits(n)[..i + 1];
    FrontDigits(n, k);
    DecValueOfDigits(Front(n, k));
    PrefixStep(s, i);
  }

  // ----- fractions -----

  /** Digits are kept up to the first prefix above 922337203685477580, that one included. */
  predicate Kept(fd: seq<byte>, m: nat)
    requires AllDigits(fd)
  {
    && m <= |fd|
    && (m > 0 ==> DecValue(fd[..m - 1]) <= 922337203685477580)
    && (m < |fd| ==> DecValue(fd[..m]) > 922337203685477580)
  }

  lemma KeptIs(s: seq<byte>, fd: seq<byte>, m: nat)
    requires AllDigits(fd) && fd <= s && Kept(fd, m)
    ensures AllDigits(s[..|fd|]) && KeptDigits(s, |fd|) == m
  {
    assert s[..|fd|] == fd && s[..m] == fd[..m];
    if m > 0 {
      assert s[..m - 1] == fd[..m - 1];
      KeepsNumeral(s, m);
    }
    if m < |fd| {
      KeptStays(s, m, m, |fd|);
    }
  }

  lemma FractionOf(fd: seq<byte>, m: nat, u: seq<byte>)
    requires AllDigits(fd) && Kept(fd, m) && (u != [] ==> !IsDigit(u[0]))
    ensures LeadingFraction(fd + u) ==
              if DecValue(fd[..m]) <= 9223372036854775759 then Parsed((DecValue(fd[..m]), Pow10(m), u)) else Overflows
  {
    hide DigitRun, KeptDigits;
    var s := fd + u;
    assert s[..|fd|] == fd && s[|fd|..] == u && s[..m] == fd[..m];
    RunCovers(s, |fd|);
    KeptIs(s, fd, m);
  }

  /** What `n` whole units and a fraction `f / scale` of one are worth. */
  ghost function Worth(fl: FloatScale, n: nat, f: nat, scale: nat, size: nat): Parsed<nat> {
    var v := if f == 0 then n * size else n * size + fl(f, size, scale);
    if v <= LARGEST then Parsed(v) else ParseFailed(InvalidDuration)
  }

  /** A number with a fraction and a unit, the digits after the kept ones being skipped. */
  lemma FractionUnits(fl: FloatScale, n: nat, fd: seq<byte>, m: nat, i: nat)
    requires n <= LARGEST - 48 && AllDigits(fd) && Kept(fd, m) && i < 10
    ensures Parse(fl, Digits(n) + ([46] + (fd + SPELLINGS[i]))) ==
              if DecValue(fd[..m]) <= 9223372036854775759
              then Worth(fl, n, DecValue(fd[..m]), Pow10(m), SIZES[i]) else Overflows
  {
    SpellingSize(i);
    var u := SPELLINGS[i];
    hide Component, Scaled, Digits, UnitOf, DigitRun, Components, LeadingFraction, Pow10;
    RunOfLetters(u);
    FractionOf(fd, m, u);
    var t := [46] + (fd + u);
    NumeralBefore(n, t);
    ComponentOfFraction(fl, Digits(n) + t, n, t);
    ScaledWorth(fl, n, DecValue(fd[..m]), Pow10(m), u);
    ParseOfOne(fl, Digits(n) + t);
  }

  /** Without whole units: the dot comes first, and a dot alone is refused. */
  lemma FractionAlone(fl: FloatScale, fd: seq<byte>, m: nat, i: nat)
    requires AllDigits(fd) && Kept(fd, m) && i < 10
    ensures Parse(fl, [46] + (fd + SPELLINGS[i])) ==
              if fd == [] then ParseFailed(InvalidDuration)
              else if DecValue(fd[..m]) <= 9223372036854775759
              then Worth(fl, 0, DecValue(fd[..m]), Pow10(m), SIZES[i]) else Overflows
  {
    SpellingSize(i);
    var u := SPELLINGS[i];
    hide Component, Scaled, UnitOf, DigitRun, Components, LeadingFraction, Pow10;
    RunOfLetters(u);
    FractionOf(fd, m, u);
    var t := [46] + (fd + u);
    assert LeadingInt(t) == Parsed((0, t)) by {
      RunCovers(t, 0);
      assert t[..0] == [] && t[0..] == t;
    }
    ComponentOfFraction(fl, t, 0, t);
    ScaledWorth(fl, 0, DecValue(fd[..m]), Pow10(m), u);
    ParseOfOne(fl, t);
  }

  lemma NumeralBefore(n: nat, t: seq<byte>)
    requires n <= LARGEST - 48 && t != [] && !IsDigit(t[0])
    ensures LeadingInt(Digits(n) + t) == Parsed((n, t))
    ensures IsDigit((Digits(n) + t)[0]) && (Digits(n) + t)[|Digits(n)|..] == t
  {
    hide Digits, DigitRun;
    NumeralRun(n, t);
    DecValueOfDigits(n);
    assert IsDigit(Digits(n)[0]);
  }

  /** A component with a dot after its numeral. */
  lemma ComponentOfFraction(fl: FloatScale, s: seq<byte>, n: nat, t: seq<byte>)
    requires s != [] && EndsUnit(s[0]) && LeadingInt(s) == Parsed((n, t)) && t != [] && t[0] == 46
    ensures Component(fl, s) == match LeadingFraction(t[1..])
                                case Overflows => Overflows
                                case ParseFailed(e) => ParseFailed(e)
                                case Parsed((f, scale, rest)) =>
                                  if |s| == |t| && |rest| == |t| - 1 then ParseFailed(InvalidDuration)
                                  else Scaled(fl, n, f, scale, rest)
  {
    hide LeadingInt, LeadingFraction, Scaled;
  }

  lemma ScaledWorth(fl: FloatScale, n: nat, f: nat, scale: nat, u: seq<byte>)
    requires u != [] && UnitRun(u) == |u| && UnitOf(u) > 0
    ensures Scaled(fl, n, f, scale, u) == match Worth(fl, n, f, scale, UnitOf(u))
                                          case Parsed(v) => Parsed((v, []))
                                          case _ => ParseFailed(InvalidDuration)
  {
    hide UnitOf;
    assert u[..|u|] == u && u[|u|..] == [];
    var size := UnitOf(u);
    if n * size <= LARGEST {
      Fits(n, size, LARGEST);
    } else {
      TooMany(n, size, LARGEST);
    }
  }

  // ----- signs, starts and lone dots -----

  /** A minus sign is refused, and a plus sign is dropped in front of anything but another sign. */
  lemma Signs(fl: FloatScale, t: seq<byte>)
    ensures Parse(fl, [45] + t) == ParseFailed(InvalidDuration)
    ensures t == [] || (t[0] != 43 && t[0] != 45) ==> Parse(fl, [43] + t) == Parse(fl, t)
    ensures t != [] && (t[0] == 43 || t[0] == 45) ==> Parse(fl, [43] + t) == ParseFailed(InvalidDuration)
    ensures Parse(fl, []) == ParseFailed(InvalidDuration)
  {
    hide LeadingInt, LeadingFraction, Scaled;
    assert ([43] + t)[1..] == t;
  }

  /** So is a text that starts with neither a digit, a dot nor a sign. */
  lemma BadStart(fl: FloatScale, t: seq<byte>)
    requires t != [] && t[0] != 43 && t[0] != 45 && t[0] != 46 && !(48 <= t[0] <= 57)
    ensures Parse(fl, t) == ParseFailed(InvalidDuration)
  {
    hide LeadingInt, LeadingFraction, Scaled;
  }
}
