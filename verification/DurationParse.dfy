/** Parsing a duration: a sign, then components of a number with optional fraction and a unit. */
module DurationParse {
  import opened Arith
  import opened Bytes
  import opened Decimal
  import opened DurationPrint

  const DAY: nat := 24 * HOUR
  const WEEK: nat := 7 * DAY

  /** The largest numeral whose last step `10 * x + c - '0'` does not overflow on the way. */
  const INT_LIMIT: nat := U64_MAX - 48
  const FRAC_LIMIT: nat := I64_MAX - 48

  datatype ParseError = BadInteger | InvalidDuration | MissingUnit | UnknownUnit

  /** `Overflows`: a machine addition overflows, which panics or wraps depending on the build. */
  datatype Parsed<+T> = Parsed(value: T) | ParseFailed(error: ParseError) | Overflows

  /** `f * (unit / scale)` in floating point, truncated to an integer: a parameter of the model. */
  type FloatScale = (nat, nat, nat) -> nat

  /** What the model asks of floating point: on numbers up to 2^53, whole quotients and products are exact. */
  ghost predicate Exact(fl: FloatScale) {
    forall f: nat, unit: nat, scale: nat ::
      0 < scale <= unit <= TWO_53 && unit % scale == 0 && f <= TWO_53 && f * (unit / scale) <= TWO_53 ==>
        fl(f, unit, scale) == f * (unit / scale)
  }

  /** Exact integer arithmetic is one way to meet it. */
  lemma ExactExists()
    ensures Exact((f: nat, unit: nat, scale: nat) => if scale == 0 then 0 else f * (unit / scale))
  {
  }

  // ----- numbers at the front of a text -----

  /** Length of the run of digits at the front. */
  function DigitRun(s: seq<byte>): (n: nat)
    ensures n <= |s| && AllDigits(s[..n]) && (n < |s| ==> !IsDigit(s[n]))
  {
    if s == [] || !IsDigit(s[0]) then 0 else
      assert s[..1 + DigitRun(s[1..])] == [s[0]] + s[1..][..DigitRun(s[1..])];
      1 + DigitRun(s[1..])
  }

  /** On the way to the first `n` digits a step passes its guard and still overflows. */
  ghost predicate StepOverflows(s: seq<byte>, n: nat)
    requires n <= |s| && AllDigits(s[..n])
  {
    exists i :: 0 <= i < n && DecValue(s[..i]) <= U64_MAX / 10 && 10 * DecValue(s[..i]) + s[i] as int > U64_MAX
  }

  /** The numeral at the front and the rest. */
  ghost function LeadingInt(s: seq<byte>): (r: Parsed<(nat, seq<byte>)>) {
    var n := DigitRun(s);
    if DecValue(s[..n]) <= INT_LIMIT then Parsed((DecValue(s[..n]), s[n..]))
    else if StepOverflows(s, n) then Overflows
    else ParseFailed(BadInteger)
  }

  lemma {:induction false} PrefixGrows(s: seq<byte>, i: nat, j: nat)
    requires i <= j <= |s| && AllDigits(s[..j])
    ensures AllDigits(s[..i]) && DecValue(s[..i]) <= DecValue(s[..j])
    ensures i < j ==> 10 * DecValue(s[..i]) <= DecValue(s[..j])
    decreases j - i
  {
    assert forall k :: 0 <= k < i ==> s[..i][k] == s[..j][k];
    if i < j {
      assert s[..j][..j - 1] == s[..j - 1];
      PrefixGrows(s, i, j - 1);
    }
  }

  lemma PrefixStep(s: seq<byte>, i: nat)
    requires i < |s| && AllDigits(s[..i]) && IsDigit(s[i])
    ensures AllDigits(s[..i + 1]) && DecValue(s[..i + 1]) == 10 * DecValue(s[..i]) + (s[i] - 48)
  {
    assert s[..i + 1] == s[..i] + [s[i]];
    DecValueSnoc(s[..i], s[i]);
  }

  lemma {:induction false} RunCovers(s: seq<byte>, i: nat)
    requires i <= |s| && AllDigits(s[..i]) && (i < |s| ==> !IsDigit(s[i]))
    ensures DigitRun(s) == i
  {
    if i > 0 {
      assert IsDigit(s[..i][0]);
      assert s[1..][..i - 1] == s[..i][1..];
      RunCovers(s[1..], i - 1);
    }
  }

  /** The digit after a prefix above the limit is refused. */
  lemma RefusedAt(s: seq<byte>, i: nat)
    requires i < DigitRun(s) && AllDigits(s[..i]) && U64_MAX / 10 < DecValue(s[..i]) <= INT_LIMIT
    ensures LeadingInt(s) == ParseFailed(BadInteger)
  {
    var n := DigitRun(s);
    PrefixGrows(s, i, n);
    forall j | 0 <= j < n && DecValue(s[..j]) <= U64_MAX / 10
      ensures 10 * DecValue(s[..j]) + s[j] as int <= U64_MAX
    {
      PrefixGrows(s, j, n);
      if i <= j {
        PrefixGrows(s, i, j);
      } else {
        assert IsDigit(s[..n][j]);
        PrefixStep(s, j);
        PrefixGrows(s, j + 1, i);
      }
    }
  }

  /** A step beyond the limit overflows. */
  lemma OverflowsAt(s: seq<byte>, i: nat)
    requires i < DigitRun(s) && AllDigits(s[..i]) && IsDigit(s[i])
    requires DecValue(s[..i]) <= U64_MAX / 10 && 10 * DecValue(s[..i]) + s[i] as int > U64_MAX
    ensures LeadingInt(s) == Overflows
  {
    PrefixStep(s, i);
    PrefixGrows(s, i + 1, DigitRun(s));
  }

  lemma WithinRun(s: seq<byte>, i: nat)
    requires i < |s| && AllDigits(s[..i + 1])
    ensures i < DigitRun(s)
  {
    assert forall k :: 0 <= k <= i ==> s[..i + 1][k] == s[k];
  }

  /** `leading_int`: folds the digits, checking the accumulator before each one. */
  method ScanInt(s: seq<byte>) returns (r: Parsed<(nat, seq<byte>)>)
    ensures r == LeadingInt(s)
  {
    hide DigitRun;
    var x: nat := 0;
    var consumed := 0;
    while consumed < |s| && IsDigit(s[consumed])
      invariant 0 <= consumed <= |s| && AllDigits(s[..consumed])
      invariant x == DecValue(s[..consumed]) <= INT_LIMIT
    {
      PrefixStep(s, consumed);
      WithinRun(s, consumed);
      if x > U64_MAX / 10 {
        RefusedAt(s, consumed);
        return ParseFailed(BadInteger);
      }
      if 10 * x + s[consumed] as int > U64_MAX {
        OverflowsAt(s, consumed);
        return Overflows;
      }
      x := 10 * x + (s[consumed] as int - 48);
      consumed := consumed + 1;
    }
    RunCovers(s, consumed);
    return Parsed((x, s[consumed..]));
  }

  // ----- fractions -----

  /** How many of the first `n` digits are accumulated before precision stops growing. */
  function KeptDigits(s: seq<byte>, n: nat): (m: nat)
    requires n <= |s| && AllDigits(s[..n])
    ensures m <= n
    decreases n
  {
    if n == 0 then 0
    else
      assert AllDigits(s[..n - 1]) by { PrefixGrows(s, n - 1, n); }
      var k := KeptDigits(s, n - 1);
      if k == n - 1 && DecValue(s[..n - 1]) <= I64_MAX / 10 then n else k
  }

  /** The fraction at the front: its kept digits as a number, the power of ten they are over, the rest. */
  ghost function LeadingFraction(s: seq<byte>): (r: Parsed<(nat, nat, seq<byte>)>) {
    var n := DigitRun(s);
    var m := KeptDigits(s, n);
    assert AllDigits(s[..m]) by { PrefixGrows(s, m, n); }
    if DecValue(s[..m]) <= FRAC_LIMIT then Parsed((DecValue(s[..m]), Pow10(m), s[n..])) else Overflows
  }

  /** Once a digit is not kept, none after it is. */
  lemma {:induction false} KeptStays(s: seq<byte>, m: nat, i: nat, n: nat)
    requires m <= i <= n <= |s| && AllDigits(s[..n]) && AllDigits(s[..i]) && AllDigits(s[..m])
    requires KeptDigits(s, i) == m && DecValue(s[..m]) > I64_MAX / 10
    ensures KeptDigits(s, n) == m
    decreases n
  {
    if i < n {
      PrefixGrows(s, n - 1, n);
      KeptStays(s, m, i, n - 1);
    }
  }

  /** `leading_fraction`: folds the digits until the accumulator is full, then only skips them. */
  method ScanFraction(s: seq<byte>) returns (r: Parsed<(nat, nat, seq<byte>)>)
    ensures r == LeadingFraction(s)
  {
    hide DigitRun;
    var consumed := 0;
    var scale: nat := 1;
    var overflow := false;
    var x: nat := 0;
    ghost var m := 0;
    while consumed < |s| && IsDigit(s[consumed])
      invariant 0 <= m <= consumed <= |s| && AllDigits(s[..consumed]) && AllDigits(s[..m])
      invariant m == KeptDigits(s, consumed) && x == DecValue(s[..m]) <= FRAC_LIMIT && scale == Pow10(m)
      invariant overflow ==> x > I64_MAX / 10
      invariant !overflow ==> m == consumed
    {
      PrefixStep(s, consumed);
      WithinRun(s, consumed);
      consumed := consumed + 1;
      if overflow {
        continue;
      }
      if x > I64_MAX / 10 {
        overflow := true;
        continue;
      }
      if x * 10 + s[consumed - 1] as int > I64_MAX {
        KeptStays(s, consumed, consumed, DigitRun(s));
        return Overflows;
      }
      x := x * 10 + (s[consumed - 1] as int - 48);
      scale := scale * 10;
      m := m + 1;
    }
    RunCovers(s, consumed);
    return Parsed((x, scale, s[consumed..]));
  }

  // ----- units -----

  predicate EndsUnit(c: byte) {
    c == DOT || IsDigit(c)
  }

  function UnitRun(s: seq<byte>): (n: nat)
    ensures n <= |s|
    ensures forall i :: 0 <= i < n ==> !EndsUnit(s[i])
    ensures n < |s| ==> EndsUnit(s[n])
  {
    if s == [] || EndsUnit(s[0]) then 0 else 1 + UnitRun(s[1..])
  }

  /** Nanoseconds of a unit name, or 0 for an unknown one. */
  function UnitOf(u: seq<byte>): (n: nat) {
    if u == [N, S] then 1
    else if u == [U, S] || u == [194, 181, 115] || u == [206, 188, 115] then MICROSECOND
    else if u == [M, S] then MILLISECOND
    else if u == [S] then SECOND
    else if u == [M] then MINUTE
    else if u == [H] then HOUR
    else if u == [100] then DAY
    else if u == [119] then WEEK
    else 0
  }

  method ScanUnit(s: seq<byte>) returns (i: nat)
    ensures i == UnitRun(s)
  {
    i := 0;
    while i < |s| && !EndsUnit(s[i])
      invariant 0 <= i <= UnitRun(s)
    {
      i := i + 1;
    }
  }

  // ----- components -----

  /** A number `v` with fraction `f / scale` in front of the unit that starts `s`. */
  ghost function Scaled(fl: FloatScale, v: nat, f: nat, scale: nat, s: seq<byte>): (r: Parsed<(nat, seq<byte>)>) {
    var i := UnitRun(s);
    var unit := UnitOf(s[..i]);
    if i == 0 then ParseFailed(MissingUnit)
    else if unit == 0 then ParseFailed(UnknownUnit)
    else if v > U64_MAX / unit then ParseFailed(InvalidDuration)
    else if f == 0 then Parsed((v * unit, s[i..]))
    else if v * unit + fl(f, unit, scale) > U64_MAX then ParseFailed(InvalidDuration)
    else Parsed((v * unit + fl(f, unit, scale), s[i..]))
  }

  /** The value of the component at the front, and the rest of the text. */
  ghost function Component(fl: FloatScale, s: seq<byte>): (r: Parsed<(nat, seq<byte>)>)
    requires s != []
  {
    if !EndsUnit(s[0]) then ParseFailed(InvalidDuration)
    else match LeadingInt(s)
      case Overflows => Overflows
      case ParseFailed(e) => ParseFailed(e)
      case Parsed((v, t)) =>
        if t != [] && t[0] == DOT then
          match LeadingFraction(t[1..])
          case Overflows => Overflows
          case ParseFailed(e) => ParseFailed(e)
          case Parsed((f, scale, rest)) =>
            if |t| == |s| && |rest| == |t[1..]| then ParseFailed(InvalidDuration)
            else Scaled(fl, v, f, scale, rest)
        else if |t| == |s| then ParseFailed(InvalidDuration)
        else Scaled(fl, v, 0, 1, t)
  }

  /** What `Component` leaves is a shorter end of the text. */
  lemma ComponentRest(fl: FloatScale, s: seq<byte>)
    requires s != []
    ensures Component(fl, s).Parsed? ==> |Component(fl, s).value.1| < |s|
  {
    hide StepOverflows, KeptDigits, DecValue, DigitRun, UnitRun, UnitOf;
  }

  /** The sum of all components of `s`, on top of `d`. */
  ghost function Components(fl: FloatScale, s: seq<byte>, d: nat): (r: Parsed<nat>)
    decreases |s|
  {
    if s == [] then Parsed(d)
    else match Component(fl, s)
      case Overflows => Overflows
      case ParseFailed(e) => ParseFailed(e)
      case Parsed((v, rest)) =>
        ComponentRest(fl, s);
        if d + v > U64_MAX then Overflows else Components(fl, rest, d + v)
  }

  const PLUS: byte := 43
  const MINUS: byte := 45

  /** The whole text: no minus sign, `0` alone allowed, otherwise at least one component. */
  ghost function Parse(fl: FloatScale, text: seq<byte>): (r: Parsed<nat>) {
    if text != [] && text[0] == MINUS then ParseFailed(InvalidDuration)
    else
      var s := if text != [] && text[0] == PLUS then text[1..] else text;
      if s == [ZERO] then Parsed(0)
      else if s == [] then ParseFailed(InvalidDuration)
      else Components(fl, s, 0)
  }

  /** One turn of the parser's loop. */
  method ScanComponent(fl: FloatScale, text: seq<byte>) returns (r: Parsed<(nat, seq<byte>)>)
    requires text != []
    ensures r == Component(fl, text)
  {
    hide LeadingInt, LeadingFraction, UnitRun;
    var s := text;
    var f, scale: nat := 0, 1;
    var c := s[0];
    if !(c == DOT || IsDigit(c)) {
      return ParseFailed(InvalidDuration);
    }
    var pl := |s|;
    var li := ScanInt(s);
    if !li.Parsed? {
      return if li.Overflows? then Overflows else ParseFailed(li.error);
    }
    var v: nat := li.value.0;
    s := li.value.1;
    var pre := pl != |s|;
    var post := false;
    if s != [] && s[0] == DOT {
      s := s[1..];
      pl := |s|;
      var lf := ScanFraction(s);
      if !lf.Parsed? {
        return if lf.Overflows? then Overflows else ParseFailed(lf.error);
      }
      f := lf.value.0;
      scale := lf.value.1;
      s := lf.value.2;
      post := pl != |s|;
    }
    if !pre && !post {
      return ParseFailed(InvalidDuration);
    }
    var i := ScanUnit(s);
    if i == 0 {
      return ParseFailed(MissingUnit);
    }
    var u := s[..i];
    s := s[i..];
    var unit := UnitOf(u);
    if unit == 0 {
      return ParseFailed(UnknownUnit);
    }
    if v > U64_MAX / unit {
      return ParseFailed(InvalidDuration);
    }
    v := v * unit;
    if f > 0 {
      v := v + fl(f, unit, scale);
      if v > U64_MAX {
        return ParseFailed(InvalidDuration);
      }
    }
    return Parsed((v, s));
  }

  method ParseDuration(fl: FloatScale, text: seq<byte>) returns (r: Parsed<nat>)
    ensures r == Parse(fl, text)
  {
    hide Component;
    var d: nat := 0;
    var neg := false;
    var s := text;
    if s != [] {
      var c := s[0];
      if c == MINUS || c == PLUS {
        neg := c == MINUS;
        s := s[1..];
      }
    }
    if neg {
      return ParseFailed(InvalidDuration);
    }
    if |s| == 1 && s[0] == ZERO {
      return Parsed(0);
    }
    if s == [] {
      return ParseFailed(InvalidDuration);
    }
    while s != []
      invariant Components(fl, s, d) == Parse(fl, text)
      decreases |s|
    {
      ComponentRest(fl, s);
      var p := ScanComponent(fl, s);
      if !p.Parsed? {
        return if p.Overflows? then Overflows else ParseFailed(p.error);
      }
      s := p.value.1;
      if d + p.value.0 > U64_MAX {
        return Overflows;
      }
      d := d + p.value.0;
    }
    return Parsed(d);
  }
}
