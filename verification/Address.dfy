/** SOCKS addresses (section 5 of RFC 1928) as they head a tunnel's plaintext. */
module AddressCodec {
  import opened Bytes

  const ADDR_TYPE_IPV4: byte := 0x01
  const ADDR_TYPE_DOMAIN_NAME: byte := 0x03
  const ADDR_TYPE_IPV6: byte := 0x04

  datatype Address =
    | V4(octets: seq<byte>, port: u16)
    | V6(segments: seq<u16>, port: u16, flow: nat, scope: nat)
    | Domain(name: seq<byte>, port: u16)

  /** The values the address types can hold: fixed sizes, and strings are UTF-8. */
  predicate WellFormed(a: Address) {
    match a
    case V4(octets, _) => |octets| == 4
    case V6(segments, _, _, _) => |segments| == 8
    case Domain(name, _) => Utf8(name)
  }

  /** Writing a domain name of 256 bytes or more panics. */
  predicate Encodable(a: Address) {
    WellFormed(a) && (a.Domain? ==> |a.name| <= 255)
  }

  /** The part of an address that travels: flow and scope ids do not. */
  function OnWire(a: Address): (r: Address) {
    if a.V6? then a.(flow := 0, scope := 0) else a
  }

  function SerializedLen(a: Address): (n: nat) {
    match a
    case V4(_, _) => 1 + 4 + 2
    case V6(_, _, _, _) => 1 + 8 * 2 + 2
    case Domain(name, _) => 1 + 1 + |name| + 2
  }

  function SegmentBytes(segments: seq<u16>): (r: seq<byte>)
    ensures |r| == 2 * |segments|
  {
    if segments == [] then [] else Be16(segments[0]) + SegmentBytes(segments[1..])
  }

  function Serialize(a: Address): (r: seq<byte>)
    requires Encodable(a)
    ensures |r| == SerializedLen(a)
  {
    match a
    case V4(octets, port) => [ADDR_TYPE_IPV4] + octets + Be16(port)
    case V6(segments, port, _, _) => [ADDR_TYPE_IPV6] + SegmentBytes(segments) + Be16(port)
    case Domain(name, port) => [ADDR_TYPE_DOMAIN_NAME, |name|] + name + Be16(port)
  }

  lemma {:induction false} SegmentBytesSnoc(segments: seq<u16>, x: u16)
    ensures SegmentBytes(segments + [x]) == SegmentBytes(segments) + Be16(x)
  {
    if segments == [] {
      assert SegmentBytes([x]) == Be16(x) + SegmentBytes([]);
    } else {
      assert (segments + [x])[1..] == segments[1..] + [x];
      SegmentBytesSnoc(segments[1..], x);
    }
  }

  method WriteSegments(segments: seq<u16>, buf: seq<byte>) returns (out: seq<byte>)
    ensures out == buf + SegmentBytes(segments)
  {
    out := buf;
    var i := 0;
    while i < |segments|
      invariant 0 <= i <= |segments|
      invariant out == buf + SegmentBytes(segments[..i])
    {
      SegmentBytesSnoc(segments[..i], segments[i]);
      assert segments[..i] + [segments[i]] == segments[..i + 1];
      out := out + Be16(segments[i]);
      i := i + 1;
    }
    assert segments[..i] == segments;
  }

  lemma ThreeParts(buf: seq<byte>, a: seq<byte>, b: seq<byte>, c: seq<byte>)
    ensures buf + a + b + c == buf + (a + b + c)
  {
  }

  /** Appends the address to `buf`, segment by segment for IPv6. */
  method WriteToBuf(a: Address, buf: seq<byte>) returns (out: seq<byte>)
    requires Encodable(a)
    ensures out == buf + Serialize(a)
  {
    match a
    case V4(octets, port) =>
      out := buf + [ADDR_TYPE_IPV4] + octets + Be16(port);
      ThreeParts(buf, [ADDR_TYPE_IPV4], octets, Be16(port));
    case V6(segments, port, _, _) =>
      out := buf + [ADDR_TYPE_IPV6];
      out := WriteSegments(segments, out);
      out := out + Be16(port);
      ThreeParts(buf, [ADDR_TYPE_IPV6], SegmentBytes(segments), Be16(port));
    case Domain(name, port) =>
      out := buf + [ADDR_TYPE_DOMAIN_NAME, |name|] + name + Be16(port);
      ThreeParts(buf, [ADDR_TYPE_DOMAIN_NAME, |name|], name, Be16(port));
  }

  // ----- reading -----

  datatype ReadResult =
    | Got(addr: Address, used: nat)
    | EndOfInput
    | TypeNotSupported(kind: byte)
    | InvalidEncoding

  function ReadSegments(b: seq<byte>): (r: seq<u16>)
    requires |b| % 2 == 0
    ensures |r| == |b| / 2
  {
    if b == [] then [] else [FromBe16(b[..2])] + ReadSegments(b[2..])
  }

  /** Reads one address from the front of `b`; `used` is the cursor position after it. */
  function ReadFrom(b: seq<byte>): (r: ReadResult) {
    if |b| < 1 then EndOfInput
    else if b[0] == ADDR_TYPE_IPV4 then
      if |b| < 1 + 6 then EndOfInput
      else Got(V4(b[1..5], FromBe16(b[5..7])), 7)
    else if b[0] == ADDR_TYPE_IPV6 then
      if |b| < 1 + 18 then EndOfInput
      else
        var words := ReadSegments(b[1..19]);
        Got(V6(words[..8], words[8], 0, 0), 19)
    else if b[0] == ADDR_TYPE_DOMAIN_NAME then
      if |b| < 2 then EndOfInput
      else
        var n := 2 + b[1] as int;
        if |b| < n + 2 then EndOfInput
        else if !Utf8(b[2..n]) then InvalidEncoding
        else Got(Domain(b[2..n], FromBe16(b[n..n + 2])), n + 2)
    else TypeNotSupported(b[0])
  }

  lemma {:induction false} ReadSegmentsOfBytes(segments: seq<u16>)
    ensures ReadSegments(SegmentBytes(segments)) == segments
  {
    if segments != [] {
      var b := SegmentBytes(segments);
      assert b[..2] == Be16(segments[0]) && b[2..] == SegmentBytes(segments[1..]);
      ReadSegmentsOfBytes(segments[1..]);
    }
  }

  lemma {:induction false} SegmentBytesOfRead(b: seq<byte>)
    requires |b| % 2 == 0
    ensures SegmentBytes(ReadSegments(b)) == b
  {
    if b != [] {
      Be16OfFromBe16(b[..2]);
      SegmentBytesOfRead(b[2..]);
      assert ReadSegments(b)[1..] == ReadSegments(b[2..]);
      assert b == b[..2] + b[2..];
    }
  }

  /** Reading what was written gives the address back and stops right after it. */
  lemma ReadOfSerialized(a: Address, rest: seq<byte>)
    requires Encodable(a)
    ensures ReadFrom(Serialize(a) + rest) == Got(OnWire(a), SerializedLen(a))
    ensures (Serialize(a) + rest)[SerializedLen(a)..] == rest
  {
    match a
    case V4(octets, port) =>
      Parts([ADDR_TYPE_IPV4], octets, Be16(port), rest);
    case V6(segments, port, _, _) =>
      var tag, body := [ADDR_TYPE_IPV6], SegmentBytes(segments + [port]);
      SegmentBytesSnoc(segments, port);
      ThreeParts([], tag, SegmentBytes(segments), Be16(port));
      assert Serialize(a) == tag + body + [];
      Parts(tag, body, [], rest);
      ReadSegmentsOfBytes(segments + [port]);
    case Domain(name, port) =>
      Parts([ADDR_TYPE_DOMAIN_NAME, |name|], name, Be16(port), rest);
  }

  /** The converse: whatever reads as an address is the one serialization of that address. */
  lemma SerializedOfRead(b: seq<byte>)
    requires ReadFrom(b).Got?
    ensures var a := ReadFrom(b).addr;
            && Encodable(a) && OnWire(a) == a
            && ReadFrom(b).used == SerializedLen(a) <= |b|
            && Serialize(a) == b[..SerializedLen(a)]
  {
    hide Utf8, ReadSegments, SegmentBytes;
    match ReadFrom(b).addr
    case V4(_, _) =>
      Be16OfFromBe16(b[5..7]);
      assert b[..7] == [b[0]] + b[1..5] + b[5..7];
    case V6(segments, port, _, _) =>
      var words := ReadSegments(b[1..19]);
      assert words == segments + [port];
      SegmentBytesSnoc(segments, port);
      SegmentBytesOfRead(b[1..19]);
      assert b[..19] == [b[0]] + b[1..19];
    case Domain(name, _) =>
      var n := 2 + b[1] as int;
      Be16OfFromBe16(b[n..n + 2]);
      assert b[..n + 2] == [b[0], b[1]] + b[2..n] + b[n..n + 2];
  }

  // ----- the layout on the wire -----

  /** `b` starts with `a` in the layout of section 5 of RFC 1928: type, address and port, numbers big-endian. */
  predicate StartsWithAddress(b: seq<byte>, a: Address) {
    match a
    case V4(octets, port) =>
      && |octets| == 4 && |b| >= 7 && b[0] == 1
      && b[1] == octets[0] && b[2] == octets[1] && b[3] == octets[2] && b[4] == octets[3]
      && b[5] == port / 256 && b[6] == port % 256
    case V6(segments, port, _, _) =>
      && |segments| == 8 && |b| >= 19 && b[0] == 4
      && (forall i :: 0 <= i < 8 ==> b[2 * i + 1] == segments[i] / 256 && b[2 * i + 2] == segments[i] % 256)
      && b[17] == port / 256 && b[18] == port % 256
    case Domain(name, port) =>
      && |b| >= 4 + |name| && b[0] == 3
      && b[1] == |name| && b[2..2 + |name|] == name
      && b[2 + |name|] == port / 256 && b[3 + |name|] == port % 256
  }

  lemma {:induction false} SegmentAt(segments: seq<u16>, i: nat)
    requires i < |segments|
    ensures SegmentBytes(segments)[2 * i] == segments[i] / 256 && SegmentBytes(segments)[2 * i + 1] == segments[i] % 256
  {
    if i > 0 {
      SegmentAt(segments[1..], i - 1);
    }
  }

  /** Exactly the byte strings in that layout start with the serialization. */
  lemma SerializedLayout(a: Address, b: seq<byte>)
    requires Encodable(a)
    ensures StartsWithAddress(b, a) <==> Serialize(a) <= b
    ensures StartsWithAddress(Serialize(a), a)
  {
    hide Utf8;
    match a
    case V4(octets, port) =>
      assert Serialize(a) == [1, octets[0], octets[1], octets[2], octets[3], port / 256, port % 256];
    case V6(_, _, _, _) =>
      LayoutOfV6(a, b);
    case Domain(name, port) =>
      assert Serialize(a) == [3, |name|] + name + [port / 256, port % 256];
      assert |b| >= 4 + |name| ==> b[..4 + |name|] == b[..2] + b[2..2 + |name|] + b[2 + |name|..4 + |name|];
  }

  lemma LayoutOfV6(a: Address, b: seq<byte>)
    requires Encodable(a) && a.V6?
    ensures StartsWithAddress(b, a) <==> Serialize(a) <= b
    ensures StartsWithAddress(Serialize(a), a)
  {
    hide SegmentBytes;
    var s := Serialize(a);
    forall i | 0 <= i < 8
      ensures s[2 * i + 1] == a.segments[i] / 256 && s[2 * i + 2] == a.segments[i] % 256
    {
      SegmentAt(a.segments, i);
    }
    assert s[0] == 4 && s[17] == a.port / 256 && s[18] == a.port % 256;
    if StartsWithAddress(b, a) {
      forall k | 0 <= k < 19
        ensures b[k] == s[k]
      {
        if 1 <= k < 17 {
          var i := (k - 1) / 2;
          assert k == 2 * i + 1 || k == 2 * i + 2;
          assert b[2 * i + 1] == a.segments[i] / 256 && b[2 * i + 2] == a.segments[i] % 256;
        }
      }
    }
  }

  /** Reading gives an address if and only if one stands there. */
  lemma ReadExactly(b: seq<byte>)
    ensures ReadFrom(b).Got? <==> exists a :: Encodable(a) && StartsWithAddress(b, a)
  {
    hide ReadFrom, StartsWithAddress, Encodable, Serialize, SerializedLen;
    if ReadFrom(b).Got? {
      SerializedOfRead(b);
      SerializedLayout(ReadFrom(b).addr, b);
    }
    if a :| Encodable(a) && StartsWithAddress(b, a) {
      SerializedLayout(a, b);
      var rest := b[|Serialize(a)|..];
      assert b == Serialize(a) + rest;
      ReadOfSerialized(a, rest);
    }
  }

  /** Each error is given for its cause. */
  lemma ReadErrors(b: seq<byte>)
    ensures ReadFrom(b).TypeNotSupported? <==> b != [] && b[0] != 1 && b[0] != 3 && b[0] != 4
    ensures ReadFrom(b).TypeNotSupported? ==> ReadFrom(b).kind == b[0]
    ensures ReadFrom(b).InvalidEncoding? <==>
              |b| >= 2 && b[0] == 3 && |b| >= 4 + b[1] as int && !Utf8(b[2..2 + b[1] as int])
    ensures ReadFrom(b).EndOfInput? <==>
              || b == [] || (b[0] == 1 && |b| < 7) || (b[0] == 4 && |b| < 19)
              || (b[0] == 3 && (|b| < 2 || |b| < 4 + b[1] as int))
  {
    hide Utf8, ReadSegments;
  }
}
