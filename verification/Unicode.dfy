/** UTF-8 as the encoding of Unicode scalar values (section 3 of RFC 3629). */
module Unicode {
  import opened Arith
  import opened Bytes

  /** A code point that is not a surrogate. */
  predicate Scalar(c: int) {
    0 <= c < 0x110000 && !(0xD800 <= c < 0xE000)
  }

  /** One scalar value in one to four bytes of six payload bits behind the first. */
  function EncodeScalar(c: int): (r: seq<byte>)
    requires Scalar(c)
    ensures 1 <= |r| <= 4
  {
    if c < 0x80 then [c]
    else if c < 0x800 then [0xC0 + c / 64, 0x80 + c % 64]
    else if c < 0x10000 then [0xE0 + c / 4096, 0x80 + c / 64 % 64, 0x80 + c % 64]
    else [0xF0 + c / 262144, 0x80 + c / 4096 % 64, 0x80 + c / 64 % 64, 0x80 + c % 64]
  }

  predicate Scalars(cs: seq<int>) {
    forall i :: 0 <= i < |cs| ==> Scalar(cs[i])
  }

  function EncodeText(cs: seq<int>): (r: seq<byte>)
    requires Scalars(cs)
  {
    if cs == [] then [] else EncodeScalar(cs[0]) + EncodeText(cs[1..])
  }

  /** A scalar at the front is recognised with its length. */
  lemma LengthOfScalar(c: int, rest: seq<byte>)
    requires Scalar(c)
    ensures CodePointLength(EncodeScalar(c) + rest) == |EncodeScalar(c)|
  {
    if c >= 0x10000 {
      FourBytes(c);
    } else if c >= 0x800 {
      ThreeBytes(c);
    }
  }

  lemma ThreeBytes(c: int)
    requires 0x800 <= c < 0x10000 && Scalar(c)
    ensures 0 <= c / 4096 <= 15 && ThreeByteLead(0xE0 + c / 4096, 0x80 + c / 64 % 64)
  {
    Base64(c);
  }

  lemma FourBytes(c: int)
    requires 0x10000 <= c < 0x110000
    ensures 0 <= c / 262144 <= 4 && FourByteLead(0xF0 + c / 262144, 0x80 + c / 4096 % 64)
  {
    Base64(c);
  }

  lemma Base64(c: nat)
    ensures c == 262144 * (c / 262144) + 4096 * (c / 4096 % 64) + 64 * (c / 64 % 64) + c % 64
    ensures c / 4096 == 64 * (c / 262144) + c / 4096 % 64
  {
    var a, lo := c / 64, c % 64;
    var b, mid := a / 64, a % 64;
    var top, hi := b / 64, b % 64;
    var d := Joined(top, hi, mid, lo);
    assert d == c;
  }

  /** What is recognised at the front is a scalar. */
  lemma ScalarOfLength(s: seq<byte>) returns (c: int)
    requires CodePointLength(s) > 0
    ensures Scalar(c) && EncodeScalar(c) == s[..CodePointLength(s)]
  {
    hide EncodeScalar;
    var n := CodePointLength(s);
    if n == 1 {
      c := s[0];
      OneByte(s[0]);
      assert s[..1] == [s[0]];
    } else if n == 2 {
      c := ScalarOfTwo(s[0], s[1]);
      assert s[..2] == [s[0], s[1]];
    } else if n == 3 {
      c := ScalarOfThree(s[0], s[1], s[2]);
      assert s[..3] == [s[0], s[1], s[2]];
    } else {
      c := ScalarOfFour(s[0], s[1], s[2], s[3]);
      assert s[..4] == [s[0], s[1], s[2], s[3]];
    }
  }

  lemma OneByte(a: byte)
    requires a < 0x80
    ensures EncodeScalar(a) == [a]
  {
  }

  lemma ScalarOfTwo(a: byte, b: byte) returns (c: int)
    requires 0xC2 <= a <= 0xDF && Continuation(b)
    ensures Scalar(c) && EncodeScalar(c) == [a, b]
  {
    c := 64 * (a as int - 0xC0) + (b as int - 0x80);
    DivModUnique(c, a as int - 0xC0, b as int - 0x80, 64);
  }

  lemma ScalarOfThree(a: byte, b: byte, d: byte) returns (c: int)
    requires ThreeByteLead(a, b) && Continuation(d)
    ensures Scalar(c) && EncodeScalar(c) == [a, b, d]
  {
    c := Joined(0, a as int - 0xE0, b as int - 0x80, d as int - 0x80);
  }

  lemma ScalarOfFour(a: byte, b: byte, d: byte, e: byte) returns (c: int)
    requires FourByteLead(a, b) && Continuation(d) && Continuation(e)
    ensures Scalar(c) && EncodeScalar(c) == [a, b, d, e]
  {
    c := Joined(a as int - 0xF0, b as int - 0x80, d as int - 0x80, e as int - 0x80);
  }

  /** Digits to base 64. */
  lemma Joined(top: int, hi: int, mid: int, lo: int) returns (c: int)
    requires 0 <= top && 0 <= hi < 64 && 0 <= mid < 64 && 0 <= lo < 64
    ensures c == 262144 * top + 4096 * hi + 64 * mid + lo
    ensures c / 262144 == top && c / 4096 % 64 == hi && c / 64 % 64 == mid && c % 64 == lo && c / 4096 == 64 * top + hi
  {
    c := 262144 * top + 4096 * hi + 64 * mid + lo;
    DivModUnique(c, top, 4096 * hi + 64 * mid + lo, 262144);
    DivModUnique(c, 64 * top + hi, 64 * mid + lo, 4096);
    DivModUnique(c, 4096 * top + 64 * hi + mid, lo, 64);
    DivModUnique(64 * top + hi, top, hi, 64);
    DivModUnique(4096 * top + 64 * hi + mid, 64 * top + hi, mid, 64);
  }

  lemma {:induction false} Utf8OfText(cs: seq<int>)
    requires Scalars(cs)
    ensures Utf8(EncodeText(cs))
    decreases |cs|
  {
    if cs != [] {
      var head, tail := EncodeScalar(cs[0]), EncodeText(cs[1..]);
      LengthOfScalar(cs[0], tail);
      assert (head + tail)[|head|..] == tail;
      Utf8OfText(cs[1..]);
    }
  }

  lemma TextCons(c: int, rest: seq<int>)
    requires Scalar(c) && Scalars(rest)
    ensures Scalars([c] + rest) && EncodeText([c] + rest) == EncodeScalar(c) + EncodeText(rest)
  {
    hide Scalar, EncodeScalar;
    assert ([c] + rest)[1..] == rest;
  }

  lemma NoText()
    ensures Scalars([]) && EncodeText([]) == []
  {
  }

  lemma Utf8Step(s: seq<byte>)
    requires Utf8(s) && s != []
    ensures CodePointLength(s) > 0 && Utf8(s[CodePointLength(s)..])
  {
    hide CodePointLength;
  }

  lemma {:induction false} TextOfUtf8(s: seq<byte>) returns (cs: seq<int>)
    requires Utf8(s)
    ensures Scalars(cs) && EncodeText(cs) == s
    decreases |s|
  {
    hide *;
    if s == [] {
      cs := [];
      NoText();
    } else {
      Utf8Step(s);
      var n := CodePointLength(s);
      var c := ScalarOfLength(s);
      var rest := TextOfUtf8(s[n..]);
      TextCons(c, rest);
      cs := [c] + rest;
      assert s == s[..n] + s[n..];
    }
  }

  /** A byte string is accepted as UTF-8 if and only if it encodes a list of scalar values. */
  lemma Utf8Exactly(s: seq<byte>)
    ensures Utf8(s) <==> exists cs :: Scalars(cs) && EncodeText(cs) == s
  {
    if Utf8(s) {
      var cs := TextOfUtf8(s);
    }
    if cs :| Scalars(cs) && EncodeText(cs) == s {
      Utf8OfText(cs);
    }
  }
}
