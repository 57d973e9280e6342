/** UDP packets of the tunnel: salt, then address and payload sealed together. */
module Udp {
  import opened Bytes
  import opened CipherModel
  import opened Framing
  import opened AddressCodec

  datatype UdpResult =
    | Unpacked(length: nat, addr: Address)
    | PacketTooShortForSalt(need: nat, have: nat)
    | PacketTooShortForTag(need: nat, have: nat)
    | DecryptPayloadError
    | InvalidAddress(cause: ReadResult)

  /** The packet for `addr` and `payload` under a fresh salt. */
  function Pack(s: Suite, key: seq<byte>, salt: seq<byte>, addr: Address, payload: seq<byte>): (r: seq<byte>)
    requires Encodable(addr)
  {
    salt + SealAt(SessionOf(s, key, salt), 0, Serialize(addr) + payload)
  }

  /** The plaintext of a packet, address included. */
  function Plaintext(s: Suite, key: seq<byte>, packet: seq<byte>): (r: Option<seq<byte>>)
    requires s.saltLen <= |packet|
  {
    OpenAt(SessionOf(s, key, packet[..s.saltLen]), 0, packet[s.saltLen..])
  }

  function Unpack(s: Suite, key: seq<byte>, packet: seq<byte>): (r: UdpResult) {
    if |packet| < s.saltLen then PacketTooShortForSalt(s.saltLen, |packet|)
    else if |packet| - s.saltLen < TAG_LEN then PacketTooShortForTag(TAG_LEN, |packet| - s.saltLen)
    else match Plaintext(s, key, packet)
      case None => DecryptPayloadError
      case Some(p) =>
        match ReadFrom(p)
        case Got(addr, used) => Unpacked(if used <= |p| then |p| - used else 0, addr)
        case e => InvalidAddress(e)
  }

  function Resize(b: seq<byte>, n: nat): (r: seq<byte>)
    ensures |r| == n
  {
    if n <= |b| then b[..n] else b + seq(n - |b|, _ => 0)
  }

  /** Builds a packet in `dst`, whatever `dst` held before. */
  method EncryptPayload(s: Suite, key: seq<byte>, salt: seq<byte>, addr: Address, payload: seq<byte>, dst: seq<byte>)
    returns (packet: seq<byte>)
    requires Correct(s) && |salt| == s.saltLen && Encodable(addr)
    ensures packet == Pack(s, key, salt, addr, payload)
    ensures |packet| == s.saltLen + SerializedLen(addr) + |payload| + TAG_LEN
  {
    hide Serialize, Correct, SerializedLen;
    packet := Resize(dst, s.saltLen);
    packet := salt + packet[s.saltLen..];
    assert packet == salt && packet[..s.saltLen] == salt;
    var cipher := NewCipher(s, key, packet[..s.saltLen]);
    packet := WriteToBuf(addr, packet);
    packet := packet + payload;
    AppendAssoc(salt, Serialize(addr), payload);
    var m := packet[s.saltLen..];
    assert m == Serialize(addr) + payload;
    assert packet[..s.saltLen] == salt;
    m := cipher.Encrypt(m);
    packet := packet[..s.saltLen] + m;
    SealedLength(SessionOf(s, key, salt), 0, Serialize(addr) + payload);
  }

  /** Moves `n` bytes from `start` to the front. */
  method CopyToFront(a: array<byte>, start: nat, n: nat)
    requires start + n <= a.Length
    modifies a
    ensures a[..n] == old(a[start..start + n])
    ensures start > 0 ==> a[start + n..] == old(a[start + n..])
  {
    for i := 0 to n
      invariant a[..i] == old(a[start..start + i])
      invariant forall j :: start + i <= j < a.Length ==> a[j] == old(a[j])
    {
      assert old(a[start..start + i + 1]) == old(a[start..start + i]) + [old(a[start + i])];
      a[i] := a[start + i];
      assert a[..i + 1] == a[..i] + [a[i]];
    }
  }

  /** Opens a packet in place: afterwards its front holds the payload, and the result gives its length. */
  method DecryptPayload(s: Suite, key: seq<byte>, payload: array<byte>) returns (r: UdpResult)
    requires Correct(s)
    modifies payload
    ensures r == Unpack(s, key, old(payload[..]))
    ensures r.Unpacked? ==>
              var p := Plaintext(s, key, old(payload[..])).value;
              && r.length + SerializedLen(r.addr) == |p| <= payload.Length
              && p == Serialize(r.addr) + payload[..r.length]
    ensures !r.Unpacked? && !r.InvalidAddress? ==> payload[..] == old(payload[..])
  {
    hide Serialize, Correct;
    var plen := payload.Length;
    if plen < s.saltLen {
      return PacketTooShortForSalt(s.saltLen, plen);
    }
    ghost var packet := payload[..];
    var data := payload[s.saltLen..];
    assert payload[..s.saltLen] == packet[..s.saltLen] && data == packet[s.saltLen..];
    var cipher := NewCipher(s, key, payload[..s.saltLen]);
    if |data| < TAG_LEN {
      return PacketTooShortForTag(TAG_LEN, |data|);
    }
    var m := cipher.Decrypt(data);
    if m.None? {
      return DecryptPayloadError;
    }
    OpenedLength(SessionOf(s, key, packet[..s.saltLen]), 0, data);
    r := ParsePacket(payload, s.saltLen, m.value);
  }

  /** Writes the plaintext where the sealed text was, reads the address and moves what follows it to the front. */
  method ParsePacket(a: array<byte>, start: nat, p: seq<byte>) returns (r: UdpResult)
    requires start + |p| <= a.Length
    modifies a
    ensures match ReadFrom(p)
            case Got(addr, used) =>
              && r == Unpacked(|p| - used, addr)
              && used == SerializedLen(addr) <= |p|
              && p == Serialize(addr) + a[..|p| - used]
            case e => r == InvalidAddress(e)
  {
    hide Serialize, ReadFrom, SerializedLen;
    Overwrite(a, start, p);
    var parsed := ReadFrom(p);
    if !parsed.Got? {
      return InvalidAddress(parsed);
    }
    SerializedOfRead(p);
    var n := |p| - parsed.used;
    SubSlice(a[..], start, p, parsed.used);
    CopyToFront(a, start + parsed.used, n);
    assert p == p[..parsed.used] + p[parsed.used..];
    return Unpacked(n, parsed.addr);
  }

  method Overwrite(a: array<byte>, start: nat, p: seq<byte>)
    requires start + |p| <= a.Length
    modifies a
    ensures a[start..start + |p|] == p
  {
    forall i | 0 <= i < |p| {
      a[start + i] := p[i];
    }
  }

  lemma SubSlice(a: seq<byte>, start: nat, p: seq<byte>, k: nat)
    requires start + |p| <= |a| && a[start..start + |p|] == p && k <= |p|
    ensures a[start + k..start + |p|] == p[k..]
  {
    assert a[start + k..start + |p|] == a[start..start + |p|][k..];
  }

  method NewCipher(s: Suite, key: seq<byte>, salt: seq<byte>) returns (c: Cipher)
    requires Correct(s)
    ensures fresh(c) && fresh(c.nonce) && c.Valid() && c.used == 0 && c.suite == s && c.subkey == s.derive(key, salt)
  {
    c := new Cipher(s, key, salt);
  }

  /** Unpacking, by the bytes: each error for its cause, and otherwise the address that the plaintext starts with. */
  lemma UnpackExactly(s: Suite, key: seq<byte>, packet: seq<byte>)
    requires Correct(s)
    ensures var n, r := |packet|, Unpack(s, key, packet);
            && (n < s.saltLen ==> r == PacketTooShortForSalt(s.saltLen, n))
            && (s.saltLen <= n < s.saltLen + 16 ==> r == PacketTooShortForTag(16, n - s.saltLen))
            && (s.saltLen + 16 <= n ==>
                  match Plaintext(s, key, packet)
                  case None => r == DecryptPayloadError
                  case Some(p) =>
                    if r.Unpacked?
                    then Encodable(r.addr) && StartsWithAddress(p, r.addr) && r.length + SerializedLen(r.addr) == |p|
                    else r.InvalidAddress? && forall a :: Encodable(a) ==> !StartsWithAddress(p, a))
  {
    hide ReadFrom, Serialize, StartsWithAddress, Encodable, Correct;
    if s.saltLen + TAG_LEN <= |packet| && Plaintext(s, key, packet).Some? {
      var p := Plaintext(s, key, packet).value;
      ReadExactly(p);
      if ReadFrom(p).Got? {
        SerializedOfRead(p);
        SerializedLayout(ReadFrom(p).addr, p);
      }
    }
  }

  /** Round trip: a packed payload unpacks to the same payload and, flow and scope ids aside, the same address. */
  lemma UnpackOfPack(s: Suite, key: seq<byte>, salt: seq<byte>, addr: Address, payload: seq<byte>)
    requires Correct(s) && |salt| == s.saltLen && Encodable(addr)
    ensures var packet := Pack(s, key, salt, addr, payload);
            && |packet| == s.saltLen + SerializedLen(addr) + |payload| + TAG_LEN
            && Unpack(s, key, packet) == Unpacked(|payload|, OnWire(addr))
            && Plaintext(s, key, packet) == Some(Serialize(addr) + payload)
            && StartsWithAddress(Serialize(addr) + payload, addr)
  {
    var packet := Pack(s, key, salt, addr, payload);
    SerializedLayout(addr, Serialize(addr) + payload);
    SealedLength(SessionOf(s, key, salt), 0, Serialize(addr) + payload);
    assert packet[..s.saltLen] == salt;
    assert packet[s.saltLen..] == SealAt(SessionOf(s, key, salt), 0, Serialize(addr) + payload);
    ReadOfSerialized(addr, payload);
  }

  /** The round trip through the two methods, in place: the front of the packet is the payload again. */
  method RoundTrip(s: Suite, key: seq<byte>, salt: seq<byte>, addr: Address, payload: seq<byte>, dst: seq<byte>)
    returns (r: UdpResult, front: seq<byte>)
    requires Correct(s) && |salt| == s.saltLen && Encodable(addr)
    ensures r == Unpacked(|payload|, OnWire(addr)) && front == payload
  {
    hide Correct, Pack, Unpack, Plaintext;
    var packet := EncryptPayload(s, key, salt, addr, payload, dst);
    var buf := new byte[|packet|](i requires 0 <= i < |packet| => packet[i]);
    assert buf[..] == packet;
    UnpackOfPack(s, key, salt, addr, payload);
    r := DecryptPayload(s, key, buf);
    front := buf[..r.length];
    SameSerialization(addr);
    assert (Serialize(addr) + payload)[SerializedLen(addr)..] == payload;
    assert (Serialize(addr) + front)[SerializedLen(addr)..] == front;
  }

  lemma SameSerialization(a: Address)
    requires Encodable(a)
    ensures Encodable(OnWire(a)) && Serialize(OnWire(a)) == Serialize(a)
  {
  }
}
