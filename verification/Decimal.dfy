/** Decimal numerals as byte strings. */
module Decimal {
  import opened Arith
  import opened Bytes

  const ZERO: byte := 48
  const DOT: byte := 46

  predicate IsDigit(c: byte) {
    48 <= c <= 57
  }

  predicate AllDigits(s: seq<byte>) {
    forall i :: 0 <= i < |s| ==> IsDigit(s[i])
  }

  function Pow10(n: nat): (r: nat)
    ensures r > 0
  {
    if n == 0 then 1 else 10 * Pow10(n - 1)
  }

  /** The number a digit string stands for. */
  function DecValue(s: seq<byte>): (r: nat)
    requires AllDigits(s)
  {
    if s == [] then 0 else 10 * DecValue(s[..|s| - 1]) + (s[|s| - 1] - 48)
  }

  /** The shortest numeral of `v`. */
  function Digits(v: nat): (r: seq<byte>)
    ensures r != [] && AllDigits(r)
  {
    if v < 10 then [v + 48] else Digits(v / 10) + [v % 10 + 48]
  }

  lemma DecValueSnoc(s: seq<byte>, c: byte)
    requires AllDigits(s) && IsDigit(c)
    ensures AllDigits(s + [c]) && DecValue(s + [c]) == 10 * DecValue(s) + (c - 48)
  {
    assert (s + [c])[..|s|] == s;
  }

  lemma {:induction false} DecValueOfDigits(v: nat)
    ensures DecValue(Digits(v)) == v
  {
    if v < 10 {
      assert Digits(v)[..0] == [];
    } else {
      DecValueOfDigits(v / 10);
      DecValueSnoc(Digits(v / 10), v % 10 + 48);
    }
  }

  lemma {:induction false} DigitsLength(v: nat, k: nat)
    requires v < Pow10(k) && k > 0
    ensures |Digits(v)| <= k
    decreases k
  {
    if v >= 10 {
      DigitsLength(v / 10, k - 1);
    }
  }

  /** Places to the left: dividing by ten first, or once more at the end. */
  lemma DropDigit(v: nat, p: nat)
    requires 0 < p
    ensures v / 10 / p == v / (10 * p)
  {
    var a := v / 10;
    var q, r := a / p, a % p;
    assert a == q * p + r;
    assert q * (10 * p) == 10 * (q * p) by {
      Regroup(q, 10, p);
      Regroup(10, q, p);
    }
    DivModUnique(v, q, 10 * r + v % 10, 10 * p);
  }

  /** Numerals in ASCII: digit `i` from the right is 48 plus that digit of the number. */
  lemma {:induction false} DigitsExactly(v: nat, i: nat)
    requires i < |Digits(v)|
    ensures Digits(v)[|Digits(v)| - 1 - i] == 48 + v / Pow10(i) % 10
    decreases i
  {
    if i > 0 {
      DigitsExactly(v / 10, i - 1);
      DropDigit(v, Pow10(i - 1));
    }
  }

  /** They have no digit more than they need. */
  lemma {:induction false} DigitsShortest(v: nat)
    ensures v < Pow10(|Digits(v)|) && (v >= 10 ==> Pow10(|Digits(v)| - 1) <= v)
  {
    if v >= 10 {
      DigitsShortest(v / 10);
      if v / 10 < 10 {
        assert Digits(v / 10) == [v / 10 + 48];
      }
    }
  }

  /** The number without its last `k` digits. */
  function Front(v: nat, k: nat): (r: nat) {
    if k == 0 then v else Front(v / 10, k - 1)
  }

  lemma {:induction false} FrontQuotient(v: nat, k: nat)
    ensures Front(v, k) == v / Pow10(k)
    decreases k
  {
    if k > 0 {
      FrontQuotient(v / 10, k - 1);
      DropDigit(v, Pow10(k - 1));
    }
  }

  /** The first digits of a numeral stand for that number. */
  lemma {:induction false} FrontDigits(v: nat, k: nat)
    requires k < |Digits(v)|
    ensures Digits(v)[..|Digits(v)| - k] == Digits(Front(v, k))
    decreases k
  {
    if k == 0 {
      assert Digits(v)[..|Digits(v)|] == Digits(v);
    } else {
      var n := |Digits(v / 10)|;
      FrontDigits(v / 10, k - 1);
      assert Digits(v)[..n - (k - 1)] == Digits(v / 10)[..n - (k - 1)];
    }
  }

  /** A digit in front counts with the weight of what follows. */
  lemma {:induction false} DecValueCons(c: byte, t: seq<byte>)
    requires IsDigit(c) && AllDigits(t)
    ensures AllDigits([c] + t) && DecValue([c] + t) == (c - 48) * Pow10(|t|) + DecValue(t)
    decreases |t|
  {
    if t == [] {
      assert ([c] + t)[..0] == [];
      assert DecValue([c] + t) == 10 * DecValue([]) + (c - 48);
    } else {
      var init, last := t[..|t| - 1], t[|t| - 1];
      assert Pow10(|t|) == 10 * Pow10(|init|);
      hide Pow10, DecValue;
      DecValueCons(c, init);
      DecValueSnoc(init, last);
      assert t == init + [last];
      AppendAssoc([c], init, [last]);
      DecValueSnoc([c] + init, last);
      ShiftDigit(c as int - 48, Pow10(|init|), DecValue(init), last as int - 48);
    }
  }

  lemma ShiftDigit(c: int, p: int, v: int, last: int)
    ensures 10 * (c * p + v) + last == c * (10 * p) + (10 * v + last)
  {
    Regroup(c, 10, p);
    Regroup(10, c, p);
  }

  lemma {:induction false} Pow10Add(a: nat, b: nat)
    ensures Pow10(a + b) == Pow10(a) * Pow10(b)
  {
    if a > 0 {
      Pow10Add(a - 1, b);
      Regroup(10, Pow10(a - 1), Pow10(b));
    }
  }

  // ----- fractions without trailing zeros -----

  /** Digit number `i` of `v`, counted from the right. */
  function DigitAt(v: nat, i: nat): (d: nat)
    ensures d < 10
  {
    v / Pow10(i) % 10
  }

  /** The low `n` digits of `v`, without the zeros at the end. */
  function LowDigits(v: nat, n: nat): (r: seq<byte>)
    ensures |r| <= n && AllDigits(r)
  {
    if n == 0 then []
    else
      var t := LowDigits(v, n - 1);
      if t == [] && DigitAt(v, n - 1) == 0 then [] else [DigitAt(v, n - 1) + 48] + t
  }

  /** `.` and the digits, or nothing for a zero fraction. */
  function Fraction(v: nat, n: nat): (r: seq<byte>)
    ensures |r| <= n + 1
  {
    if LowDigits(v, n) == [] then [] else [DOT] + LowDigits(v, n)
  }

  lemma ModSplit(v: nat, p: nat)
    requires p > 0
    ensures v % (10 * p) == (v / p % 10) * p + v % p
  {
    var q, r := v / p, v % p;
    var a, b := q / 10, q % 10;
    assert v == q * p + r;
    Distribute(a * 10, b, p);
    Regroup(a, 10, p);
    ProductOrder(b, 9, p);
    DivModUnique(v, a, b * p + r, 10 * p);
  }

  /** The stripped digits, padded back to `n` places, are the remainder. */
  lemma {:induction false} LowDigitsValue(v: nat, n: nat)
    ensures DecValue(LowDigits(v, n)) * Pow10(n - |LowDigits(v, n)|) == v % Pow10(n)
  {
    if n > 0 {
      LowDigitsValue(v, n - 1);
      var t, d := LowDigits(v, n - 1), DigitAt(v, n - 1);
      LowDigitsStep(v, Pow10(n - 1), t, d, n - 1);
    }
  }

  /** One more digit in front, where `t` stands for what is left of `v` modulo `p`, padded to `k` places. */
  lemma LowDigitsStep(v: nat, p: nat, t: seq<byte>, d: nat, k: nat)
    requires p == Pow10(k) && d == v / p % 10 && |t| <= k && AllDigits(t)
    requires DecValue(t) * Pow10(k - |t|) == v % p
    ensures t == [] && d == 0 ==> v % (10 * p) == 0
    ensures DecValue([d + 48] + t) * Pow10(k - |t|) == v % (10 * p)
  {
    assert DecValue([]) == 0;
    hide Pow10, DecValue;
    ModSplit(v, p);
    DecValueCons(d + 48, t);
    Pow10Add(|t|, k - |t|);
    Padded(d, Pow10(|t|), DecValue(t), Pow10(k - |t|));
  }

  lemma Padded(d: int, p: int, v: int, pad: int)
    ensures (d * p + v) * pad == d * (p * pad) + v * pad
  {
    Distribute(d * p, v, pad);
    Regroup(d, p, pad);
  }
}
