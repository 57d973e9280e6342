/** Finding the server name in a TLS ClientHello (section 7.4.1.2 of RFC 5246, section 3 of RFC 6066). */
module Sniffing {
  import opened Bytes

  const HANDSHAKE_TYPE_CLIENT_HELLO: byte := 1
  const EXTENSION_TYPE_SNI: u16 := 0
  const NAME_TYPE_HOST_NAME: byte := 0

  type u24 = x: int | 0 <= x < 0x100_0000

  /** `Panics`: the cursor was moved past the end, or a byte was read there. */
  datatype Sniffed =
    | Name(host: seq<byte>)
    | InvalidSni
    | IoEof
    | UnknownProtocol
    | TlsExtensionMissing
    | Panics

  function Be24(v: u24): (r: seq<byte>)
    ensures |r| == 3
  {
    [v / 0x1_0000, v / 0x100 % 0x100, v % 0x100]
  }

  // ----- the parser as a function of the bytes that remain -----

  /** Either the bytes after the part just read, or the final answer. */
  datatype Step = Go(rest: seq<byte>) | Stop(answer: Sniffed)

  function Skip(s: seq<byte>, n: nat): (r: Step) {
    if |s| < n then Stop(Panics) else Go(s[n..])
  }

  /** Skips a vector with a one-byte length. */
  function SkipVector8(s: seq<byte>): (r: Step)
    ensures r.Stop? ==> r.answer.Panics? || r.answer.IoEof?
  {
    if |s| < 1 then Stop(Panics) else Skip(s[1..], s[0])
  }

  /** Skips a vector with a two-byte length. */
  function SkipVector16(s: seq<byte>): (r: Step)
    ensures r.Stop? ==> r.answer.Panics? || r.answer.IoEof?
  {
    if |s| < 2 then Stop(IoEof) else Skip(s[2..], FromBe16(s[..2]))
  }

  function Names(s: seq<byte>): (r: Sniffed)
    decreases |s|
  {
    if |s| < 1 then Panics
    else if s[0] != NAME_TYPE_HOST_NAME then (if |s| < 3 then Panics else Names(s[3..]))
    else if |s| < 3 then IoEof
    else
      var n := FromBe16(s[1..3]);
      if |s| < 3 + n then IoEof
      else if Utf8(s[3..3 + n]) then Name(s[3..3 + n]) else InvalidSni
  }

  function Extensions(s: seq<byte>): (r: Sniffed)
    decreases |s|
  {
    if |s| < 4 then IoEof
    else
      var kind, len := FromBe16(s[..2]), FromBe16(s[2..4]);
      if kind != EXTENSION_TYPE_SNI then (if |s| < 4 + len then Panics else Extensions(s[4 + len..]))
      else if |s| < 6 then IoEof
      else Names(s[6..])
  }

  /** From the compression methods on. */
  function AfterSuites(s: seq<byte>): (r: Sniffed) {
    match SkipVector8(s)
    case Stop(a) => a
    case Go(t) =>
      if |t| < 2 then IoEof
      else if FromBe16(t[..2]) == 0 then TlsExtensionMissing
      else Extensions(t[2..])
  }

  /** From the session id on. */
  function AfterRandom(s: seq<byte>): (r: Sniffed) {
    match SkipVector8(s)
    case Stop(a) => a
    case Go(t) =>
      match SkipVector16(t)
      case Stop(a) => a
      case Go(u) => AfterSuites(u)
  }

  function Sni(s: seq<byte>): (r: Sniffed) {
    if |s| < 3 then Panics
    else if |s| < 5 then IoEof
    else if |s| < 6 then Panics
    else if s[5] != HANDSHAKE_TYPE_CLIENT_HELLO then UnknownProtocol
    else if |s| < 9 then IoEof
    else if |s| < 43 then Panics
    else AfterRandom(s[43..])
  }

  // ----- the cursor -----

  class Cursor {
    const data: seq<byte>
    var pos: nat

    ghost predicate Valid()
      reads this
    {
      pos <= |data|
    }

    ghost function Remaining(): (r: seq<byte>)
      requires Valid()
      reads this
    {
      data[pos..]
    }

    constructor (data: seq<byte>)
      ensures Valid() && Remaining() == data
    {
      this.data := data;
      pos := 0;
    }

    /** False stands for the panic of moving past the end. */
    method Advance(n: nat) returns (ok: bool)
      requires Valid()
      modifies this
      ensures Valid() && (ok <==> n <= |old(Remaining())|)
      ensures ok ==> Remaining() == old(Remaining())[n..]
    {
      ok := pos + n <= |data|;
      if ok {
        pos := pos + n;
      }
    }

    method ReadExact(n: nat) returns (r: Option<seq<byte>>)
      requires Valid()
      modifies this
      ensures Valid() && (r.Some? <==> n <= |old(Remaining())|)
      ensures r.Some? ==> r.value == old(Remaining())[..n] && Remaining() == old(Remaining())[n..]
    {
      if |data| - pos < n {
        pos := |data|;
        return None;
      }
      r := Some(data[pos..pos + n]);
      pos := pos + n;
    }

    /** None stands for the panic of reading a byte at the end. */
    method ReadU8() returns (r: Option<byte>)
      requires Valid()
      modifies this
      ensures Valid() && (r.Some? <==> old(Remaining()) != [])
      ensures r.Some? ==> r.value == old(Remaining())[0] && Remaining() == old(Remaining())[1..]
    {
      if pos == |data| {
        return None;
      }
      r := Some(data[pos]);
      pos := pos + 1;
    }

    method ReadU16() returns (r: Option<u16>)
      requires Valid()
      modifies this
      ensures Valid() && (r.Some? <==> 2 <= |old(Remaining())|)
      ensures r.Some? ==> r.value == FromBe16(old(Remaining())[..2]) && Remaining() == old(Remaining())[2..]
    {
      var b := ReadExact(2);
      r := if b.Some? then Some(FromBe16(b.value)) else None;
    }
  }

  /** The inner loop: entries of the server name list. Every turn consumes three bytes. */
  method ReadNames(reader: Cursor) returns (r: Sniffed)
    requires reader.Valid()
    modifies reader
    ensures r == Names(old(reader.Remaining()))
  {
    while true
      invariant reader.Valid() && Names(reader.Remaining()) == Names(old(reader.Remaining()))
      decreases |reader.Remaining()|
    {
      ghost var s := reader.Remaining();
      var nameType := reader.ReadU8();
      if nameType.None? {
        return Panics;
      }
      if nameType.value != NAME_TYPE_HOST_NAME {
        var ok := reader.Advance(2);
        if !ok {
          return Panics;
        }
        assert s[1..][2..] == s[3..];
        continue;
      }
      var nameLen := reader.ReadU16();
      if nameLen.None? {
        return IoEof;
      }
      assert s[1..][..2] == s[1..3] && s[1..][2..] == s[3..];
      var buf := reader.ReadExact(nameLen.value);
      if buf.None? {
        return IoEof;
      }
      assert s[3..][..nameLen.value] == s[3..3 + nameLen.value];
      return if Utf8(buf.value) then Name(buf.value) else InvalidSni;
    }
  }

  /** The outer loop: extensions up to the server name. Every turn consumes at least four bytes. */
  method ReadExtensions(reader: Cursor) returns (r: Sniffed)
    requires reader.Valid()
    modifies reader
    ensures r == Extensions(old(reader.Remaining()))
  {
    hide Names;
    while true
      invariant reader.Valid() && Extensions(reader.Remaining()) == Extensions(old(reader.Remaining()))
      decreases |reader.Remaining()|
    {
      ghost var s := reader.Remaining();
      var kind := reader.ReadU16();
      if kind.None? {
        return IoEof;
      }
      var len := reader.ReadU16();
      if len.None? {
        return IoEof;
      }
      assert s[2..][..2] == s[2..4] && s[2..][2..] == s[4..];
      if kind.value != EXTENSION_TYPE_SNI {
        var ok := reader.Advance(len.value);
        if !ok {
          return Panics;
        }
        assert s[4..][len.value..] == s[4 + len.value..];
        continue;
      }
      var listLen := reader.ReadU16();
      if listLen.None? {
        return IoEof;
      }
      assert s[4..][2..] == s[6..];
      r := ReadNames(reader);
      return;
    }
  }

  /** The fixed part of the record and handshake headers, up to the session id. */
  method ReadHeader(reader: Cursor) returns (r: Option<Sniffed>)
    requires reader.Valid()
    modifies reader
    ensures reader.Valid()
    ensures Sni(old(reader.Remaining())) == if r.Some? then r.value else AfterRandom(reader.Remaining())
  {
    hide AfterRandom;
    ghost var s := reader.Remaining();
    var ok := reader.Advance(1 + 2);
    if !ok {
      return Some(Panics);
    }
    var len := reader.ReadU16();
    if len.None? {
      return Some(IoEof);
    }
    assert s[3..][2..] == s[5..];
    var msgType := reader.ReadU8();
    if msgType.None? {
      return Some(Panics);
    }
    if msgType.value != HANDSHAKE_TYPE_CLIENT_HELLO {
      return Some(UnknownProtocol);
    }
    assert s[5..][1..] == s[6..];
    var msgLength := reader.ReadExact(3);
    if msgLength.None? {
      return Some(IoEof);
    }
    assert s[6..][3..] == s[9..];
    ok := reader.Advance(2 + (4 + 28));
    if !ok {
      return Some(Panics);
    }
    assert s[9..][34..] == s[43..];
    return None;
  }

  method ReadVector8(reader: Cursor) returns (ok: bool)
    requires reader.Valid()
    modifies reader
    ensures reader.Valid()
    ensures SkipVector8(old(reader.Remaining())) == if ok then Go(reader.Remaining()) else Stop(Panics)
  {
    var len := reader.ReadU8();
    if len.None? {
      return false;
    }
    ok := reader.Advance(len.value);
  }

  /** The sniffer: answers as the functional parser does on the same bytes. */
  method TlsSni(buf: seq<byte>) returns (r: Sniffed)
    ensures r == Sni(buf)
  {
    hide Extensions;
    var reader := new Cursor(buf);
    var header := ReadHeader(reader);
    if header.Some? {
      return header.value;
    }
    var ok := ReadVector8(reader);
    if !ok {
      return Panics;
    }
    var len := reader.ReadU16();
    if len.None? {
      return IoEof;
    }
    ok := reader.Advance(len.value);
    if !ok {
      return Panics;
    }
    ok := ReadVector8(reader);
    if !ok {
      return Panics;
    }
    len := reader.ReadU16();
    if len.None? {
      return IoEof;
    }
    if len.value == 0 {
      return TlsExtensionMissing;
    }
    r := ReadExtensions(reader);
  }

  // ----- the encoder -----

  datatype Extension = Extension(kind: u16, data: seq<byte>)

  /** An entry of the server name list of another type than a host name. */
  datatype NameEntry = NameEntry(kind: byte, data: seq<byte>)

  /**
   * A ClientHello that carries a server name: `others` are the entries in front of the host name, `moreNames` is
   * what follows it in the list, and `after` are the extensions that follow.
   */
  datatype ClientHello = ClientHello(
    recordVersion: seq<byte>,
    clientVersion: seq<byte>,
    random: seq<byte>,
    session: seq<byte>,
    suites: seq<byte>,
    compression: seq<byte>,
    before: seq<Extension>,
    others: seq<NameEntry>,
    host: seq<byte>,
    moreNames: seq<byte>,
    after: seq<Extension>)

  predicate Encodable(e: Extension) {
    |e.data| < 0x1_0000
  }

  function ExtensionBytes(e: Extension): (r: seq<byte>)
    requires Encodable(e)
  {
    Be16(e.kind) + Be16(|e.data|) + e.data
  }

  function ExtensionList(es: seq<Extension>): (r: seq<byte>)
    requires forall i :: 0 <= i < |es| ==> Encodable(es[i])
  {
    if es == [] then [] else ExtensionBytes(es[0]) + ExtensionList(es[1..])
  }

  /** The first entry of the server name list. */
  function HostEntry(host: seq<byte>): (r: seq<byte>)
    requires |host| < 0x1_0000
  {
    [0] + Be16(|host|) + host
  }

  predicate OtherEntry(e: NameEntry) {
    e.kind != 0 && |e.data| < 0x1_0000
  }

  function EntryBytes(e: NameEntry): (r: seq<byte>)
    requires OtherEntry(e)
  {
    [e.kind] + Be16(|e.data|) + e.data
  }

  function EntryList(es: seq<NameEntry>): (r: seq<byte>)
    requires forall i :: 0 <= i < |es| ==> OtherEntry(es[i])
  {
    if es == [] then [] else EntryBytes(es[0]) + EntryList(es[1..])
  }

  /** The names up to the end of the host name. */
  function NameList(h: ClientHello): (r: seq<byte>)
    requires NameFits(h)
  {
    EntryList(h.others) + HostEntry(h.host)
  }

  function ListSize(h: ClientHello): (n: nat)
    requires forall i :: 0 <= i < |h.others| ==> OtherEntry(h.others[i])
  {
    |EntryList(h.others)| + |h.host| + |h.moreNames| + 3
  }

  predicate NameFits(h: ClientHello) {
    (forall i :: 0 <= i < |h.others| ==> OtherEntry(h.others[i])) && ListSize(h) + 2 < 0x1_0000
  }

  function SniData(h: ClientHello): (r: seq<byte>)
    requires NameFits(h)
    ensures |r| == ListSize(h) + 2
  {
    Be16(ListSize(h)) + (NameList(h) + h.moreNames)
  }

  function ExtensionBlock(h: ClientHello): (r: seq<byte>)
    requires NameFits(h)
    requires forall i :: 0 <= i < |h.before| ==> Encodable(h.before[i])
    requires forall i :: 0 <= i < |h.after| ==> Encodable(h.after[i])
    ensures |r| > 0
  {
    ExtensionList(h.before) + (ExtensionBytes(Extension(0, SniData(h))) + ExtensionList(h.after))
  }

  /** The server name extension up to the end of its first name, and what follows that name. */
  function SniHead(h: ClientHello): (r: seq<byte>)
    requires NameFits(h)
  {
    Be16(0) + Be16(|SniData(h)|) + Be16(ListSize(h)) + NameList(h)
  }

  function Suffix(h: ClientHello): (r: seq<byte>)
    requires forall i :: 0 <= i < |h.after| ==> Encodable(h.after[i])
  {
    h.moreNames + ExtensionList(h.after)
  }

  /** Sizes that the length fields can express, and no other server name extension in front. */
  predicate WellFormed(h: ClientHello) {
    && |h.recordVersion| == 2 && |h.clientVersion| == 2 && |h.random| == 32
    && |h.session| < 0x100 && |h.suites| < 0x1_0000 && |h.compression| < 0x100
    && NameFits(h)
    && (forall i :: 0 <= i < |h.before| ==> Encodable(h.before[i]) && h.before[i].kind != 0)
    && (forall i :: 0 <= i < |h.after| ==> Encodable(h.after[i]))
    && |ExtensionBlock(h)| < 0x1_0000
    && |HelloBody(h)| + 4 < 0x1_0000
  }

  function Tail(h: ClientHello): (r: seq<byte>)
    requires NameFits(h) && |h.session| < 0x100 && |h.suites| < 0x1_0000 && |h.compression| < 0x100
    requires forall i :: 0 <= i < |h.before| ==> Encodable(h.before[i])
    requires forall i :: 0 <= i < |h.after| ==> Encodable(h.after[i])
    requires |ExtensionBlock(h)| < 0x1_0000
  {
    ([|h.session|] + h.session)
    + ((Be16(|h.suites|) + h.suites)
       + (([|h.compression|] + h.compression)
          + (Be16(|ExtensionBlock(h)|) + ExtensionBlock(h))))
  }

  function HelloBody(h: ClientHello): (r: seq<byte>)
    requires NameFits(h) && |h.session| < 0x100 && |h.suites| < 0x1_0000 && |h.compression| < 0x100
    requires forall i :: 0 <= i < |h.before| ==> Encodable(h.before[i])
    requires forall i :: 0 <= i < |h.after| ==> Encodable(h.after[i])
    requires |ExtensionBlock(h)| < 0x1_0000
  {
    h.clientVersion + h.random + Tail(h)
  }

  /** One record with one handshake message of the given type. */
  function Message(kind: byte, h: ClientHello): (r: seq<byte>)
    requires WellFormed(h)
  {
    [22] + h.recordVersion + Be16(|HelloBody(h)| + 4)
    + ([kind] + Be24(|HelloBody(h)|) + HelloBody(h))
  }

  /** Type 1 is the ClientHello. */
  function Record(h: ClientHello): (r: seq<byte>)
    requires WellFormed(h)
  {
    Message(1, h)
  }

  // ----- the sniffer undoes the encoder -----

  lemma SkipVector8Of(v: seq<byte>, rest: seq<byte>)
    requires |v| < 0x100
    ensures SkipVector8([|v|] + v + rest) == Go(rest)
  {
    var s := [|v|] + v + rest;
    assert s[1..] == v + rest;
    assert (v + rest)[|v|..] == rest;
  }

  lemma SkipVector16Of(v: seq<byte>, rest: seq<byte>)
    requires |v| < 0x1_0000
    ensures SkipVector16(Be16(|v|) + v + rest) == Go(rest)
  {
    var s := Be16(|v|) + v + rest;
    assert s[..2] == Be16(|v|);
    assert s[2..] == v + rest;
    assert (v + rest)[|v|..] == rest;
  }

  lemma NamesOfHost(host: seq<byte>, rest: seq<byte>)
    requires |host| < 0x1_0000
    ensures Names(HostEntry(host) + rest) == if Utf8(host) then Name(host) else InvalidSni
  {
    var s := HostEntry(host) + rest;
    assert s[1..3] == Be16(|host|);
    assert s[3..3 + |host|] == host;
  }

  lemma ExtensionsOfOther(e: Extension, rest: seq<byte>)
    requires Encodable(e) && e.kind != 0
    ensures Extensions(ExtensionBytes(e) + rest) == Extensions(rest)
  {
    var s := ExtensionBytes(e) + rest;
    assert s[..2] == Be16(e.kind) && s[2..4] == Be16(|e.data|);
    assert s[4 + |e.data|..] == rest;
  }

  lemma ExtensionsOfSni(h: ClientHello, rest: seq<byte>)
    requires NameFits(h)
    ensures Extensions(SniHead(h) + rest) == Names(NameList(h) + rest)
  {
    hide Names, NameList, SniData;
    var s := SniHead(h) + rest;
    assert s[..2] == Be16(0);
    assert s[6..] == NameList(h) + rest;
  }

  lemma {:induction false} ExtensionsOfList(es: seq<Extension>, rest: seq<byte>)
    requires forall i :: 0 <= i < |es| ==> Encodable(es[i]) && es[i].kind != 0
    ensures Extensions(ExtensionList(es) + rest) == Extensions(rest)
    decreases |es|
  {
    hide Extensions;
    if es == [] {
      assert ExtensionList(es) + rest == rest;
    } else {
      AppendAssoc(ExtensionBytes(es[0]), ExtensionList(es[1..]), rest);
      ExtensionsOfOther(es[0], ExtensionList(es[1..]) + rest);
      ExtensionsOfList(es[1..], rest);
    }
  }

  // The parts in front of the end of the host name, one around the other.

  function BlockPrefix(h: ClientHello): (r: seq<byte>)
    requires WellFormed(h)
  {
    ExtensionList(h.before) + SniHead(h)
  }

  function TailPrefix(h: ClientHello): (r: seq<byte>)
    requires WellFormed(h)
  {
    ([|h.session|] + h.session)
    + ((Be16(|h.suites|) + h.suites)
       + (([|h.compression|] + h.compression)
          + (Be16(|ExtensionBlock(h)|) + BlockPrefix(h))))
  }

  /** The record up to the end of the host name. */
  function RecordPrefix(h: ClientHello): (r: seq<byte>)
    requires WellFormed(h)
  {
    [22] + h.recordVersion + Be16(|HelloBody(h)| + 4)
    + ([1] + Be24(|HelloBody(h)|) + (h.clientVersion + h.random + TailPrefix(h)))
  }

  lemma BlockSplit(h: ClientHello)
    requires WellFormed(h)
    ensures ExtensionBlock(h) == BlockPrefix(h) + Suffix(h)
  {
    hide HelloBody, ExtensionList, NameList;
    var size := Be16(ListSize(h));
    var front := Be16(0) + Be16(|SniData(h)|);
    var after := ExtensionList(h.after);
    assert (front + (size + (NameList(h) + h.moreNames))) + after
        == (front + size + NameList(h)) + (h.moreNames + after);
    AppendAssoc(ExtensionList(h.before), SniHead(h), Suffix(h));
  }

  lemma TailSplit(h: ClientHello)
    requires WellFormed(h)
    ensures Tail(h) == TailPrefix(h) + Suffix(h)
  {
    hide HelloBody, ExtensionBlock, BlockPrefix, Suffix;
    BlockSplit(h);
    var size := Be16(|ExtensionBlock(h)|);
    var exts := size + BlockPrefix(h);
    var comp := ([|h.compression|] + h.compression) + exts;
    var suites := (Be16(|h.suites|) + h.suites) + comp;
    AppendAssoc(size, BlockPrefix(h), Suffix(h));
    AppendAssoc([|h.compression|] + h.compression, exts, Suffix(h));
    AppendAssoc(Be16(|h.suites|) + h.suites, comp, Suffix(h));
    AppendAssoc([|h.session|] + h.session, suites, Suffix(h));
  }

  lemma RecordSplit(h: ClientHello)
    requires WellFormed(h)
    ensures Record(h) == RecordPrefix(h) + Suffix(h)
  {
    hide Tail, TailPrefix, ExtensionBlock, Suffix;
    TailSplit(h);
    var head := [22] + h.recordVersion + Be16(|HelloBody(h)| + 4);
    var kind := [1] + Be24(|HelloBody(h)|);
    var fixed := h.clientVersion + h.random;
    AppendAssoc(fixed, TailPrefix(h), Suffix(h));
    AppendAssoc(kind, fixed + TailPrefix(h), Suffix(h));
    AppendAssoc(head, kind + (fixed + TailPrefix(h)), Suffix(h));
  }

  lemma ExtensionsOfBlock(h: ClientHello, rest: seq<byte>)
    requires WellFormed(h)
    ensures Extensions(BlockPrefix(h) + rest) == Names(NameList(h) + rest)
  {
    hide Extensions, Names, NameList, HelloBody, SniHead;
    AppendAssoc(ExtensionList(h.before), SniHead(h), rest);
    ExtensionsOfList(h.before, SniHead(h) + rest);
    ExtensionsOfSni(h, rest);
  }

  lemma AfterRandomOfTail(h: ClientHello, rest: seq<byte>)
    requires WellFormed(h)
    ensures AfterRandom(TailPrefix(h) + rest) == Names(NameList(h) + rest)
  {
    hide Extensions, Names, NameList, HelloBody, SkipVector8, SkipVector16, ExtensionBlock, BlockPrefix;
    var size, block := Be16(|ExtensionBlock(h)|), BlockPrefix(h);
    var exts := size + block;
    var comp := ([|h.compression|] + h.compression) + exts;
    var suites := (Be16(|h.suites|) + h.suites) + comp;
    AppendAssoc([|h.session|] + h.session, suites, rest);
    AppendAssoc(Be16(|h.suites|) + h.suites, comp, rest);
    AppendAssoc([|h.compression|] + h.compression, exts, rest);
    SkipVector8Of(h.session, suites + rest);
    SkipVector16Of(h.suites, comp + rest);
    SkipVector8Of(h.compression, exts + rest);
    AppendAssoc(size, block, rest);
    assert (size + (block + rest))[..2] == size;
    assert (size + (block + rest))[2..] == block + rest;
    ExtensionsOfBlock(h, rest);
  }

  lemma RecordHead(h: ClientHello, rest: seq<byte>)
    requires WellFormed(h)
    ensures var s := RecordPrefix(h) + rest;
            |s| >= 43 && s[5] == 1 && s[43..] == TailPrefix(h) + rest
  {
    hide TailPrefix, ExtensionBlock, Tail;
    var head := [22] + h.recordVersion + Be16(|HelloBody(h)| + 4);
    var kind := [1] + Be24(|HelloBody(h)|);
    var fixed := h.clientVersion + h.random;
    assert |head| == 5 && |kind| == 4 && |fixed| == 34;
    Behind(head, kind, fixed, TailPrefix(h), rest);
    assert kind[0] == 1;
  }

  lemma Behind(a: seq<byte>, b: seq<byte>, c: seq<byte>, d: seq<byte>, rest: seq<byte>)
    ensures var s := a + (b + (c + d)) + rest;
            && s[|a| + |b| + |c|..] == d + rest
            && (b != [] ==> s[|a|] == b[0])
  {
  }

  /** Up to the names every field is read as it was written, whatever stands there. */
  lemma SniIsNames(h: ClientHello, rest: seq<byte>)
    requires WellFormed(h)
    ensures Sni(RecordPrefix(h) + rest) == Names(NameList(h) + rest)
  {
    hide AfterRandom, Names, NameList, RecordPrefix, TailPrefix;
    RecordHead(h, rest);
    AfterRandomOfTail(h, rest);
  }

  /**
   * What the sniffer can skip: it steps over three bytes at a time without looking at the length, so the data of
   * an entry must be made of groups of three that do not start with the type of a host name. No data is fine.
   */
  predicate Skippable(data: seq<byte>)
    decreases |data|
  {
    data == [] || (|data| >= 3 && data[0] != 0 && Skippable(data[3..]))
  }

  predicate PlainNames(h: ClientHello) {
    forall i :: 0 <= i < |h.others| ==> Skippable(h.others[i].data)
  }

  lemma {:induction false} NamesOfData(data: seq<byte>, rest: seq<byte>)
    requires Skippable(data)
    ensures Names(data + rest) == Names(rest)
    decreases |data|
  {
    if data == [] {
      assert data + rest == rest;
    } else {
      assert (data + rest)[3..] == data[3..] + rest;
      NamesOfData(data[3..], rest);
    }
  }

  lemma NamesOfOther(e: NameEntry, rest: seq<byte>)
    requires OtherEntry(e)
    ensures Names(EntryBytes(e) + rest) == Names(e.data + rest)
  {
    assert (EntryBytes(e) + rest)[3..] == e.data + rest;
  }

  lemma {:induction false} NamesOfList(es: seq<NameEntry>, rest: seq<byte>)
    requires forall i :: 0 <= i < |es| ==> OtherEntry(es[i]) && Skippable(es[i].data)
    ensures Names(EntryList(es) + rest) == Names(rest)
    decreases |es|
  {
    hide Names, EntryBytes;
    if es == [] {
      assert EntryList(es) + rest == rest;
    } else {
      AppendAssoc(EntryBytes(es[0]), EntryList(es[1..]), rest);
      NamesOfOther(es[0], EntryList(es[1..]) + rest);
      NamesOfData(es[0].data, EntryList(es[1..]) + rest);
      NamesOfList(es[1..], rest);
    }
  }

  /**
   * The sniffer is the inverse of the encoder, and it needs no byte behind the host name: for every
   * well-formed ClientHello, any extensions before the server name, any entries before the host name that it can
   * skip and anything at all after it, the answer is exactly the first host name.
   */
  lemma SniOfPrefix(h: ClientHello, rest: seq<byte>)
    requires WellFormed(h) && PlainNames(h)
    ensures Sni(RecordPrefix(h) + rest) == if Utf8(h.host) then Name(h.host) else InvalidSni
  {
    hide Sni, Names, Utf8, RecordPrefix, HelloBody, ExtensionBlock;
    SniIsNames(h, rest);
    AppendAssoc(EntryList(h.others), HostEntry(h.host), rest);
    NamesOfList(h.others, HostEntry(h.host) + rest);
    NamesOfHost(h.host, rest);
  }

  /** Data that cannot be skipped spoils the host name behind it, even one of a single letter. */
  lemma {:induction false} Unskippable(data: seq<byte>) returns (a: byte)
    requires !Skippable(data)
    ensures 0 < a < 0x80 && Names(data + HostEntry([a])) != Name([a])
    decreases |data|
  {
    if |data| >= 3 && data[0] != 0 {
      a := Unskippable(data[3..]);
      assert (data + HostEntry([a]))[3..] == data[3..] + HostEntry([a]);
    } else {
      a := if |data| >= 4 && data[3] == 65 then 66 else 65;
      Stuck(data, a);
    }
  }

  /** A one-letter name found at an entry of the host name type is the one of that entry. */
  lemma LetterHere(s: seq<byte>, a: byte)
    requires |s| >= 4 && s[0] == 0
    ensures Names(s) == Name([a]) ==> s[1] == 0 && s[2] == 1 && s[3] == a
  {
    hide Utf8;
    if Names(s) == Name([a]) {
      var n := FromBe16(s[1..3]);
      assert s[3..3 + n as int] == [a];
    }
  }

  lemma Stuck(data: seq<byte>, a: byte)
    requires data != [] && (|data| < 3 || data[0] == 0) && 65 <= a <= 66 && (|data| >= 4 ==> data[3] != a)
    ensures Names(data + HostEntry([a])) != Name([a])
  {
    hide Names;
    var s := data + HostEntry([a]);
    assert HostEntry([a]) == [0, 0, 1, a];
    if data[0] != 0 {
      Misaligned(data, a);
    } else {
      assert |data| < 3 ==> s[2] == 0;
      assert |data| >= 3 ==> s[3] != a;
      LetterHere(s, a);
    }
  }

  lemma Misaligned(data: seq<byte>, a: byte)
    requires 1 <= |data| <= 2 && data[0] != 0
    ensures !Names(data + [0, 0, 1, a]).Name?
  {
    hide Utf8;
    var s := data + [0, 0, 1, a];
    if |data| == 1 {
      assert s[3..] == [1, a];
    } else {
      assert s[3..] == [0, 1, a] && s[3..][1..3] == [1, a];
    }
  }

  /** Exactly: an entry of another type leaves every host name behind it readable iff its data can be skipped. */
  lemma SkippableExactly(e: NameEntry)
    requires OtherEntry(e)
    ensures (forall a: byte :: 0 < a < 0x80 ==> Names(EntryBytes(e) + HostEntry([a])) == Name([a])) <==> Skippable(e.data)
  {
    hide Names, HostEntry, EntryBytes;
    if Skippable(e.data) {
      forall a: byte | 0 < a < 0x80
        ensures Names(EntryBytes(e) + HostEntry([a])) == Name([a])
      {
        NamesOfOther(e, HostEntry([a]));
        NamesOfData(e.data, HostEntry([a]));
        assert HostEntry([a]) + [] == HostEntry([a]);
        AsciiIsUtf8([a]);
        NamesOfHost([a], []);
      }
    } else {
      var a := Unskippable(e.data);
      NamesOfOther(e, HostEntry([a]));
    }
  }

  /**
   * The condition is needed: an entry with one zero byte of data makes the sniffer read the host name's entry one
   * byte off. For host names below 256 bytes it answers with the empty name, and no error.
   */
  lemma OtherEntryMisread(h: ClientHello, kind: byte, rest: seq<byte>)
    requires WellFormed(h) && kind != 0 && h.others == [NameEntry(kind, [0])] && |h.host| < 0x100
    ensures Sni(Record(h) + rest) == Name([])
  {
    hide Sni, RecordPrefix, Record, HelloBody, ExtensionBlock, Suffix;
    RecordSplit(h);
    AppendAssoc(RecordPrefix(h), Suffix(h), rest);
    var tail := Suffix(h) + rest;
    SniIsNames(h, tail);
    assert h.others[1..] == [] && EntryList([]) == [];
    assert EntryList(h.others) == [kind, 0, 1, 0];
    assert HostEntry(h.host) == [0, 0, |h.host|] + h.host;
    var s := NameList(h) + tail;
    assert s == [kind, 0, 1, 0, 0, 0, |h.host|] + (h.host + tail);
    assert s[3..] == [0, 0, 0, |h.host|] + (h.host + tail);
    assert s[3..][1..3] == [0, 0] && s[3..][3..3] == [];
  }

  /** The whole record, with further names, extensions and records behind. */
  lemma SniOfRecord(h: ClientHello, rest: seq<byte>)
    requires WellFormed(h) && PlainNames(h)
    ensures Sni(Record(h) + rest) == if Utf8(h.host) then Name(h.host) else InvalidSni
  {
    hide Sni, Utf8, Record, RecordPrefix, Suffix;
    RecordSplit(h);
    AppendAssoc(RecordPrefix(h), Suffix(h), rest);
    SniOfPrefix(h, Suffix(h) + rest);
  }

  const PEEK_LEN: nat := 1024

  /** What one peek at the socket yields: at most 1024 bytes, the rest of the buffer zero. */
  function Peek(arrived: seq<byte>): (r: seq<byte>)
    ensures |r| == 1024
    ensures forall i :: 0 <= i < 1024 ==> r[i] == if i < |arrived| then arrived[i] else 0
  {
    if |arrived| >= PEEK_LEN then arrived[..PEEK_LEN]
    else arrived + seq(PEEK_LEN - |arrived|, _ => 0)
  }

  /** One peek is enough as soon as the record has arrived up to the end of the host name within 1024 bytes. */
  lemma PeekEnough(h: ClientHello, arrived: seq<byte>)
    requires WellFormed(h) && PlainNames(h) && RecordPrefix(h) <= arrived && |RecordPrefix(h)| <= 1024
    ensures Sni(Peek(arrived)) == if Utf8(h.host) then Name(h.host) else InvalidSni
  {
    hide Sni, Utf8, RecordPrefix;
    var n := |RecordPrefix(h)|;
    assert Peek(arrived) == RecordPrefix(h) + Peek(arrived)[n..];
    SniOfPrefix(h, Peek(arrived)[n..]);
  }

  // ----- a record that has arrived only in part -----

  /** The record up to the start of the host name; of the host only its length shows. */
  function RecordFront(h: ClientHello): (r: seq<byte>)
    requires WellFormed(h)
  {
    [22] + h.recordVersion + Be16(|HelloBody(h)| + 4)
    + ([1] + Be24(|HelloBody(h)|)
       + (h.clientVersion + h.random
          + (([|h.session|] + h.session)
             + ((Be16(|h.suites|) + h.suites)
                + (([|h.compression|] + h.compression)
                   + (Be16(|ExtensionBlock(h)|)
                      + (ExtensionList(h.before)
                         + (Be16(0) + Be16(|SniData(h)|) + Be16(ListSize(h))
                            + (EntryList(h.others) + ([0] + Be16(|h.host|)))))))))))
  }

  lemma HostLast(h: ClientHello)
    requires WellFormed(h)
    ensures RecordPrefix(h) == RecordFront(h) + h.host
  {
  }

  /** Two hellos that differ in the host alone, with hosts of one length, have the same front. */
  lemma OtherHost(h: ClientHello, host: seq<byte>)
    requires WellFormed(h) && |host| == |h.host|
    ensures var g := h.(host := host); WellFormed(g) && RecordFront(g) == RecordFront(h)
  {
    var g := h.(host := host);
    assert |SniData(g)| == |SniData(h)|;
    assert |ExtensionBlock(g)| == |ExtensionBlock(h)|;
    assert |Tail(g)| == |Tail(h)|;
    assert |HelloBody(g)| == |HelloBody(h)|;
  }

  /** The host name as the zero fill behind the first `m` bytes of it makes it look. */
  function Filled(host: seq<byte>, m: nat): (r: seq<byte>)
    requires m <= |host|
    ensures |r| == |host|
  {
    host[..m] + seq(|host| - m, _ => 0)
  }

  /**
   * Peeking too early: when only the first `m` bytes of the host name have arrived, the sniffer finds a host
   * name that ends in zero bytes, and reports no error if that is UTF-8.
   */
  lemma PeekTooEarly(h: ClientHello, m: nat)
    requires WellFormed(h) && PlainNames(h) && |RecordPrefix(h)| <= 1024 && m < |h.host|
    ensures var arrived := RecordFront(h) + h.host[..m];
            && arrived < RecordPrefix(h)
            && Sni(Peek(arrived)) == (if Utf8(Filled(h.host, m)) then Name(Filled(h.host, m)) else InvalidSni)
    ensures Filled(h.host, m)[m] == 0
  {
    hide Sni, Utf8, RecordPrefix, RecordFront, WellFormed;
    var g := h.(host := Filled(h.host, m));
    HostLast(h);
    OtherHost(h, g.host);
    HostLast(g);
    var arrived, n := RecordFront(h) + h.host[..m], |RecordPrefix(g)|;
    assert Peek(arrived) == RecordPrefix(g) + Peek(arrived)[n..];
    SniOfPrefix(g, Peek(arrived)[n..]);
  }

  lemma {:induction false} AsciiIsUtf8(s: seq<byte>)
    requires forall i :: 0 <= i < |s| ==> s[i] < 0x80
    ensures Utf8(s)
  {
    if s != [] {
      AsciiIsUtf8(s[1..]);
    }
  }

  /** A host name: not empty and without a zero byte. */
  predicate HostName(host: seq<byte>) {
    host != [] && 0 !in host
  }

  /** For an ASCII host name that is always a wrong name and never an error. */
  lemma PeekGivesWrongName(h: ClientHello, m: nat)
    requires WellFormed(h) && PlainNames(h) && |RecordPrefix(h)| <= 1024 && m < |h.host|
    requires HostName(h.host) && forall i :: 0 <= i < |h.host| ==> h.host[i] < 0x80
    ensures exists name :: name != h.host && Sni(Peek(RecordFront(h) + h.host[..m])) == Name(name)
  {
    hide Sni, Utf8, RecordPrefix, RecordFront, WellFormed;
    var name := Filled(h.host, m);
    PeekTooEarly(h, m);
    AsciiIsUtf8(name);
    assert name[m] == 0 && h.host[m] in h.host;
  }

  // A name found in `s` ends somewhere, and `u` gives the same name if it agrees with `s` up to there.

  ghost predicate EndsAt(s: seq<byte>, host: seq<byte>, n: nat) {
    |host| <= n <= |s| && s[n - |host|..n] == host
  }

  ghost predicate Agree(s: seq<byte>, u: seq<byte>, n: nat) {
    n <= |s| && n <= |u| && s[..n] == u[..n]
  }

  lemma Shifted(s: seq<byte>, u: seq<byte>, k: nat, n: nat, host: seq<byte>)
    requires k <= |s| && EndsAt(s[k..], host, n)
    ensures EndsAt(s, host, k + n)
    ensures Agree(s, u, k + n) ==> k <= |u| && s[..k] == u[..k] && Agree(s[k..], u[k..], n)
  {
    assert s[k..][n - |host|..n] == s[k + n - |host|..k + n];
    if Agree(s, u, k + n) {
      assert s[..k] == s[..k + n][..k] && u[..k] == u[..k + n][..k];
      assert s[k..][..n] == s[..k + n][k..] && u[k..][..n] == u[..k + n][k..];
    }
  }

  lemma {:induction false} NamesLocal(s: seq<byte>, u: seq<byte>) returns (n: nat)
    requires Names(s).Name?
    ensures EndsAt(s, Names(s).host, n) && (Agree(s, u, n) ==> Names(u) == Names(s))
    decreases |s|
  {
    if s[0] != 0 {
      n := NamesLocal(s[3..], if |u| < 3 then [] else u[3..]);
      Shifted(s, u, 3, n, Names(s).host);
      n := 3 + n;
      if Agree(s, u, n) {
        assert s[0] == s[..3][0] == u[..3][0] == u[0];
      }
    } else {
      n := 3 + FromBe16(s[1..3]);
      if Agree(s, u, n) {
        assert s[..n][1..3] == s[1..3] && u[..n][1..3] == u[1..3];
        assert s[..n][3..n] == s[3..n] && u[..n][3..n] == u[3..n];
        assert s[0] == s[..n][0] == u[..n][0] == u[0];
      }
    }
  }

  lemma SameHead(s: seq<byte>, u: seq<byte>, k: nat)
    requires 4 <= k <= |s| && k <= |u| && s[..k] == u[..k]
    ensures s[..2] == u[..2] && s[2..4] == u[2..4]
  {
    assert s[..k][..2] == s[..2] && u[..k][..2] == u[..2];
    assert s[..k][2..4] == s[2..4] && u[..k][2..4] == u[2..4];
  }

  lemma {:induction false} ExtensionsLocal(s: seq<byte>, u: seq<byte>) returns (n: nat)
    requires Extensions(s).Name?
    ensures EndsAt(s, Extensions(s).host, n) && (Agree(s, u, n) ==> Extensions(u) == Extensions(s))
    decreases |s|
  {
    hide Names, EndsAt, Agree;
    var kind, len := FromBe16(s[..2]), FromBe16(s[2..4]);
    var k := if kind != 0 then 4 + len as int else 6;
    if kind != 0 {
      n := ExtensionsLocal(s[k..], if |u| < k then [] else u[k..]);
    } else {
      n := NamesLocal(s[k..], if |u| < k then [] else u[k..]);
    }
    Shifted(s, u, k, n, Extensions(s).host);
    n := k + n;
    if Agree(s, u, n) {
      SameHead(s, u, k);
    }
  }

  lemma SkipVector8Local(s: seq<byte>, u: seq<byte>) returns (k: nat)
    requires SkipVector8(s).Go?
    ensures k <= |s| && SkipVector8(s) == Go(s[k..])
    ensures k <= |u| && s[..k] == u[..k] ==> SkipVector8(u) == Go(u[k..])
  {
    k := 1 + s[0] as int;
    assert s[1..][s[0]..] == s[k..];
    if k <= |u| && s[..k] == u[..k] {
      assert u[0] == u[..k][0] == s[..k][0];
      assert u[1..][u[0]..] == u[k..];
    }
  }

  lemma SkipVector16Local(s: seq<byte>, u: seq<byte>) returns (k: nat)
    requires SkipVector16(s).Go?
    ensures k <= |s| && SkipVector16(s) == Go(s[k..])
    ensures k <= |u| && s[..k] == u[..k] ==> SkipVector16(u) == Go(u[k..])
  {
    var len := FromBe16(s[..2]);
    k := 2 + len as int;
    assert s[2..][len..] == s[k..];
    if k <= |u| && s[..k] == u[..k] {
      assert s[..k][..2] == s[..2] && u[..k][..2] == u[..2];
      assert u[2..][len..] == u[k..];
    }
  }

  lemma AfterSuitesLocal(s: seq<byte>, u: seq<byte>) returns (n: nat)
    requires AfterSuites(s).Name?
    ensures EndsAt(s, AfterSuites(s).host, n) && (Agree(s, u, n) ==> AfterSuites(u) == AfterSuites(s))
  {
    hide Extensions, SkipVector8, EndsAt, Agree;
    var k := SkipVector8Local(s, u);
    var t, v := s[k..], if |u| < k then [] else u[k..];
    n := ExtensionsLocal(t[2..], if |v| < 2 then [] else v[2..]);
    Shifted(t, v, 2, n, AfterSuites(s).host);
    Shifted(s, u, k, 2 + n, AfterSuites(s).host);
    n := k + (2 + n);
  }

  lemma AfterRandomLocal(s: seq<byte>, u: seq<byte>) returns (n: nat)
    requires AfterRandom(s).Name?
    ensures EndsAt(s, AfterRandom(s).host, n) && (Agree(s, u, n) ==> AfterRandom(u) == AfterRandom(s))
  {
    hide AfterSuites, SkipVector8, SkipVector16, EndsAt, Agree;
    var k := SkipVector8Local(s, u);
    var t, v := s[k..], if |u| < k then [] else u[k..];
    var l := SkipVector16Local(t, v);
    n := AfterSuitesLocal(t[l..], if |v| < l then [] else v[l..]);
    Shifted(t, v, l, n, AfterRandom(s).host);
    Shifted(s, u, k, l + n, AfterRandom(s).host);
    n := k + (l + n);
  }

  /** The sniffer is local: a name it finds is part of the input, and it depends on nothing behind the name. */
  lemma SniLocal(s: seq<byte>, u: seq<byte>) returns (n: nat)
    requires Sni(s).Name?
    ensures EndsAt(s, Sni(s).host, n) && (Agree(s, u, n) ==> Sni(u) == Sni(s))
  {
    hide AfterRandom, EndsAt, Agree;
    n := AfterRandomLocal(s[43..], if |u| < 43 then [] else u[43..]);
    Shifted(s, u, 43, n, Sni(s).host);
    n := 43 + n;
    if Agree(s, u, n) {
      assert s[5] == s[..43][5] == u[..43][5] == u[5];
    }
  }

  /**
   * Peeking, exactly. For every well-formed ClientHello with a host name, whatever follows it, and every part of
   * it that has arrived, one peek gives the host name if and only if that is UTF-8 and has arrived to its end
   * within the first 1024 bytes.
   */
  lemma SniOfPeek(h: ClientHello, rest: seq<byte>, arrived: seq<byte>)
    requires WellFormed(h) && PlainNames(h) && HostName(h.host) && arrived <= Record(h) + rest
    ensures Sni(Peek(arrived)) == Name(h.host)
       <==> Utf8(h.host) && RecordPrefix(h) <= arrived && |RecordPrefix(h)| <= 1024
  {
    hide Sni, Utf8, RecordPrefix, Record, WellFormed, Suffix;
    RecordSplit(h);
    var prefix := RecordPrefix(h);
    if prefix <= arrived && |prefix| <= 1024 {
      PeekEnough(h, arrived);
    } else if Sni(Peek(arrived)) == Name(h.host) {
      NotYetThere(h, arrived);
    }
  }

  /** Before the end of the host name has arrived, a peek cannot give it: its last byte is still missing. */
  lemma NotYetThere(h: ClientHello, arrived: seq<byte>)
    requires WellFormed(h) && PlainNames(h) && HostName(h.host)
    requires |arrived| < |RecordPrefix(h)| || 1024 < |RecordPrefix(h)|
    requires forall i :: 0 <= i < |arrived| && i < |RecordPrefix(h)| ==> arrived[i] == RecordPrefix(h)[i]
    ensures Sni(Peek(arrived)) != Name(h.host)
  {
    hide Sni, Utf8, RecordPrefix, RecordFront, WellFormed;
    if Sni(Peek(arrived)) == Name(h.host) {
      var s, prefix, last := Peek(arrived), RecordPrefix(h), |h.host| - 1;
      var g := h.(host := h.host[..last] + [0]);
      HostLast(h);
      OtherHost(h, g.host);
      HostLast(g);
      var u := RecordPrefix(g);
      var n := SniLocal(s, u);
      assert s[n - 1] == s[n - |h.host|..n][last] == h.host[last];
      assert n <= |arrived|;
      assert n < |prefix|;
      assert s[..n] == u[..n];
      assert u + [] == u;
      SniOfPrefix(g, []);
    }
  }

  // ----- a record without a server name -----

  datatype BareHello = BareHello(
    recordVersion: seq<byte>,
    clientVersion: seq<byte>,
    random: seq<byte>,
    session: seq<byte>,
    suites: seq<byte>,
    compression: seq<byte>,
    extensions: seq<Extension>)

  predicate BareFits(b: BareHello) {
    && |b.recordVersion| == 2 && |b.clientVersion| == 2 && |b.random| == 32
    && |b.session| < 0x100 && |b.suites| < 0x1_0000 && |b.compression| < 0x100
    && (forall i :: 0 <= i < |b.extensions| ==> Encodable(b.extensions[i]) && b.extensions[i].kind != 0)
    && |ExtensionList(b.extensions)| < 0x1_0000
    && |BareTail(b)| + 38 < 0x1_0000
  }

  function BareTail(b: BareHello): (r: seq<byte>)
    requires |b.session| < 0x100 && |b.suites| < 0x1_0000 && |b.compression| < 0x100
    requires forall i :: 0 <= i < |b.extensions| ==> Encodable(b.extensions[i])
    requires |ExtensionList(b.extensions)| < 0x1_0000
  {
    ([|b.session|] + b.session)
    + ((Be16(|b.suites|) + b.suites)
       + (([|b.compression|] + b.compression)
          + (Be16(|ExtensionList(b.extensions)|) + ExtensionList(b.extensions))))
  }

  function BareRecord(b: BareHello): (r: seq<byte>)
    requires BareFits(b)
  {
    [22] + b.recordVersion + Be16(|BareTail(b)| + 38)
    + ([1] + Be24(|BareTail(b)| + 34) + (b.clientVersion + b.random + BareTail(b)))
  }

  lemma {:induction false} NoExtensions(es: seq<Extension>)
    requires forall i :: 0 <= i < |es| ==> Encodable(es[i])
    ensures ExtensionList(es) == [] <==> es == []
  {
    if es != [] {
      assert |ExtensionBytes(es[0])| >= 4;
    }
  }

  /** The sniffer reads on behind the last extension. */
  lemma SniOfBare(b: BareHello, rest: seq<byte>)
    requires BareFits(b)
    ensures Sni(BareRecord(b) + rest) == if b.extensions == [] then TlsExtensionMissing else Extensions(rest)
  {
    hide Extensions, SkipVector8, SkipVector16, ExtensionList;
    var block := ExtensionList(b.extensions);
    var size := Be16(|block|);
    var exts := size + block;
    var comp := ([|b.compression|] + b.compression) + exts;
    var suites := (Be16(|b.suites|) + b.suites) + comp;
    BareHead(b, rest);
    AppendAssoc([|b.session|] + b.session, suites, rest);
    AppendAssoc(Be16(|b.suites|) + b.suites, comp, rest);
    AppendAssoc([|b.compression|] + b.compression, exts, rest);
    SkipVector8Of(b.session, suites + rest);
    SkipVector16Of(b.suites, comp + rest);
    SkipVector8Of(b.compression, exts + rest);
    AppendAssoc(size, block, rest);
    assert (size + (block + rest))[..2] == size;
    assert (size + (block + rest))[2..] == block + rest;
    NoExtensions(b.extensions);
    ExtensionsOfList(b.extensions, rest);
  }

  lemma BareHead(b: BareHello, rest: seq<byte>)
    requires BareFits(b)
    ensures var s := BareRecord(b) + rest;
            |s| >= 43 && s[5] == 1 && s[43..] == BareTail(b) + rest
  {
    hide BareTail;
    var head := [22] + b.recordVersion + Be16(|BareTail(b)| + 38);
    var kind := [1] + Be24(|BareTail(b)| + 34);
    var fixed := b.clientVersion + b.random;
    assert |head| == 5 && |kind| == 4 && |fixed| == 34;
    Behind(head, kind, fixed, BareTail(b), rest);
    assert kind[0] == 1;
  }

  function Zeros(n: nat): (r: seq<byte>) {
    seq(n, _ => 0)
  }

  /** Nine zero bytes read as a server name extension with an empty host name; fewer are too short for one. */
  lemma ExtensionsOfZeros(n: nat)
    ensures Extensions(Zeros(n)) == if n >= 9 then Name([]) else if n == 6 then Panics else IoEof
  {
    var z := Zeros(n);
    if n >= 6 {
      assert z[..2] == [0, 0] && z[2..4] == [0, 0];
      assert z[6..] == Zeros(n - 6);
      if n >= 9 {
        assert z[6..][1..3] == [0, 0] && z[6..][3..3] == [];
      }
    } else if n >= 4 {
      assert z[..2] == [0, 0] && z[2..4] == [0, 0];
    }
  }

  /**
   * A hello that names no server, peeked at as a whole. With any extension at all the sniffer reads the zero fill of
   * its buffer as a server name: it reports the empty name if and only if at least nine bytes of fill are left.
   */
  lemma PeekOfBare(b: BareHello)
    requires BareFits(b) && b.extensions != []
    ensures Sni(Peek(BareRecord(b))).Name? <==> |BareRecord(b)| + 9 <= 1024
    ensures |BareRecord(b)| + 9 <= 1024 ==> Sni(Peek(BareRecord(b))) == Name([])
  {
    hide Sni, BareRecord, BareFits, Extensions;
    var record := BareRecord(b);
    if |record| <= 1024 {
      var n := 1024 - |record|;
      assert Peek(record) == record + Zeros(n);
      SniOfBare(b, Zeros(n));
      ExtensionsOfZeros(n);
    } else if Sni(Peek(record)).Name? {
      var n := SniLocal(Peek(record), record);
      assert Peek(record)[..n] == record[..n];
      assert record + Zeros(0) == record;
      SniOfBare(b, Zeros(0));
      ExtensionsOfZeros(0);
    }
  }

  /** Without extensions the missing name is reported. */
  lemma PeekOfBarest(b: BareHello)
    requires BareFits(b) && b.extensions == [] && |BareRecord(b)| <= 1024
    ensures Sni(Peek(BareRecord(b))) == TlsExtensionMissing
  {
    hide Sni, BareRecord, BareFits;
    var n := 1024 - |BareRecord(b)|;
    assert Peek(BareRecord(b)) == BareRecord(b) + Zeros(n);
    SniOfBare(b, Zeros(n));
  }
}
