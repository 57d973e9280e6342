/** Exactly which bytes lead the sniffer to which answer, with every field written out. */
module Anatomy {
  import opened Bytes
  import opened Sniffing

  /** A vector behind a length of one byte, and of two. */
  function Vector8(v: seq<byte>): (r: seq<byte>)
    requires |v| < 256
  {
    [|v|] + v
  }

  function Vector16(v: seq<byte>): (r: seq<byte>)
    requires |v| < 65536
  {
    [|v| / 256, |v| % 256] + v
  }

  /**
   * Up to the extensions: five bytes of record header, the type 1, three bytes of length, 34 bytes of version and
   * random, and the three vectors.
   */
  datatype Opening = Opening(
    head: seq<byte>,
    size: seq<byte>,
    fixed: seq<byte>,
    session: seq<byte>,
    suites: seq<byte>,
    compression: seq<byte>)

  predicate OpeningFits(o: Opening) {
    |o.head| == 5 && |o.size| == 3 && |o.fixed| == 34
    && |o.session| < 256 && |o.suites| < 65536 && |o.compression| < 256
  }

  function OpeningBytes(o: Opening): (r: seq<byte>)
    requires OpeningFits(o)
  {
    o.head + ([1] + o.size + o.fixed)
    + (Vector8(o.session) + (Vector16(o.suites) + Vector8(o.compression)))
  }

  datatype Other = Other(kind: seq<byte>, data: seq<byte>)

  predicate OtherFits(e: Other) {
    |e.kind| == 2 && e.kind != [0, 0] && |e.data| < 65536
  }

  function OtherBytes(e: Other): (r: seq<byte>)
    requires OtherFits(e)
  {
    e.kind + Vector16(e.data)
  }

  function OthersBytes(es: seq<Other>): (r: seq<byte>)
    requires forall i :: 0 <= i < |es| ==> OtherFits(es[i])
  {
    if es == [] then [] else OtherBytes(es[0]) + OthersBytes(es[1..])
  }

  /**
   * From the extensions up to the host name: extensions of other types than 0, then type 0 with its two lengths,
   * then names that are skipped three bytes at a time because they do not start with 0.
   */
  datatype Listing = Listing(others: seq<Other>, size: seq<byte>, list: seq<byte>, skipped: seq<byte>)

  predicate Triples(s: seq<byte>) {
    |s| % 3 == 0 && forall i :: 0 <= i < |s| && i % 3 == 0 ==> s[i] != 0
  }

  predicate ListingFits(l: Listing) {
    (forall i :: 0 <= i < |l.others| ==> OtherFits(l.others[i]))
    && |l.size| == 2 && |l.list| == 2 && Triples(l.skipped)
  }

  function SniField(l: Listing): (r: seq<byte>) {
    [0, 0] + l.size + l.list
  }

  /** The entry of the host name: type 0 and a vector. */
  function HostField(x: seq<byte>): (r: seq<byte>)
    requires |x| < 65536
  {
    [0] + Vector16(x)
  }

  /** The whole text up to the host name, then `rest`. The two bytes in front of the extensions are not both zero. */
  function Hello(o: Opening, block: seq<byte>, l: Listing, x: seq<byte>, rest: seq<byte>): (r: seq<byte>)
    requires OpeningFits(o) && ListingFits(l) && |x| < 65536
  {
    OpeningBytes(o) + (block + (OthersBytes(l.others) + (SniField(l) + (l.skipped + (HostField(x) + rest)))))
  }

  ghost predicate Carries(s: seq<byte>, x: seq<byte>) {
    |x| < 65536 &&
    exists o, block, l, rest ::
      OpeningFits(o) && |block| == 2 && block != [0, 0] && ListingFits(l) && s == Hello(o, block, l, x, rest)
  }

  // ----- reading what was put together -----

  lemma {:induction false} TriplesSkippable(s: seq<byte>)
    ensures Triples(s) <==> Skippable(s)
    decreases |s|
  {
    if |s| >= 3 && s[0] != 0 {
      TriplesSkippable(s[3..]);
      assert forall i :: 3 <= i < |s| ==> s[i] == s[3..][i - 3];
      assert forall i :: 0 <= i < |s| - 3 ==> s[3..][i] == s[i + 3];
      assert forall i {:trigger s[i]} :: 3 <= i < |s| ==> (i % 3 == 0 <==> (i - 3) % 3 == 0);
    }
  }

  lemma NamesRead(skipped: seq<byte>, x: seq<byte>, rest: seq<byte>)
    requires Triples(skipped) && |x| < 65536
    ensures Names(skipped + (HostField(x) + rest)) == if Utf8(x) then Name(x) else InvalidSni
  {
    hide Names, Utf8;
    TriplesSkippable(skipped);
    NamesOfData(skipped, HostField(x) + rest);
    assert HostField(x) == HostEntry(x);
    NamesOfHost(x, rest);
  }

  lemma OtherRead(e: Other, t: seq<byte>)
    requires OtherFits(e)
    ensures Extensions(OtherBytes(e) + t) == Extensions(t)
  {
    var s := OtherBytes(e) + t;
    assert s[..2] == e.kind && s[2..4] == Be16(|e.data|);
    assert s[4 + |e.data|..] == t;
  }

  lemma {:induction false} OthersRead(es: seq<Other>, t: seq<byte>)
    requires forall i :: 0 <= i < |es| ==> OtherFits(es[i])
    ensures Extensions(OthersBytes(es) + t) == Extensions(t)
    decreases |es|
  {
    hide Extensions, OtherBytes;
    if es == [] {
      assert OthersBytes(es) + t == t;
    } else {
      AppendAssoc(OtherBytes(es[0]), OthersBytes(es[1..]), t);
      OtherRead(es[0], OthersBytes(es[1..]) + t);
      OthersRead(es[1..], t);
    }
  }

  lemma SniFieldRead(l: Listing, t: seq<byte>)
    requires ListingFits(l)
    ensures Extensions(SniField(l) + t) == Names(t)
  {
    hide Names;
    var s := SniField(l) + t;
    assert s[..2] == [0, 0] && s[6..] == t;
  }

  /** From the two bytes in front of the extensions on. */
  function AtBlock(t: seq<byte>): (r: Sniffed) {
    if |t| < 2 then IoEof else if t[0] == 0 && t[1] == 0 then TlsExtensionMissing else Extensions(t[2..])
  }

  lemma OpeningRead(o: Opening, t: seq<byte>)
    requires OpeningFits(o)
    ensures Sni(OpeningBytes(o) + t) == AtBlock(t)
  {
    hide Extensions, SkipVector8, SkipVector16;
    var rest := Vector8(o.compression) + t;
    var vectors := Vector8(o.session) + (Vector16(o.suites) + rest);
    var s := OpeningBytes(o) + t;
    OpeningShape(o, t);
    assert Vector16(o.suites) == Be16(|o.suites|) + o.suites;
    SkipVector8Of(o.session, Vector16(o.suites) + rest);
    SkipVector16Of(o.suites, rest);
    SkipVector8Of(o.compression, t);
  }

  lemma OpeningShape(o: Opening, t: seq<byte>)
    requires OpeningFits(o)
    ensures var s := OpeningBytes(o) + t;
            |s| >= 43 && s[5] == 1
            && s[43..] == Vector8(o.session) + (Vector16(o.suites) + (Vector8(o.compression) + t))
  {
  }

  /** Whatever is put together like that is read back. */
  lemma HelloRead(o: Opening, block: seq<byte>, l: Listing, x: seq<byte>, rest: seq<byte>)
    requires OpeningFits(o) && |block| == 2 && block != [0, 0] && ListingFits(l) && |x| < 65536
    ensures Sni(Hello(o, block, l, x, rest)) == if Utf8(x) then Name(x) else InvalidSni
  {
    hide Sni, Extensions, Names, Utf8, OpeningBytes, OthersBytes, SniField, HostField, Triples;
    var named := l.skipped + (HostField(x) + rest);
    var t := OthersBytes(l.others) + (SniField(l) + named);
    OpeningRead(o, block + t);
    assert (block + t)[2..] == t && (block + t)[0] == block[0] && (block + t)[1] == block[1];
    OthersRead(l.others, SniField(l) + named);
    SniFieldRead(l, named);
    NamesRead(l.skipped, x, rest);
  }

  // ----- taking apart what was read -----

  predicate Found(r: Sniffed) {
    r.Name? || r.InvalidSni?
  }

  lemma {:induction false} NamesFound(s: seq<byte>) returns (skipped: seq<byte>, x: seq<byte>, rest: seq<byte>)
    requires Found(Names(s))
    ensures Skippable(skipped) && |x| < 65536 && s == skipped + (HostField(x) + rest)
    decreases |s|
  {
    hide HostField, Utf8;
    if s[0] != 0 {
      var g;
      g, x, rest := NamesFound(s[3..]);
      skipped := s[..3] + g;
      assert skipped[3..] == g;
      AppendAssoc(s[..3], g, HostField(x) + rest);
    } else {
      x, rest := HostFound(s, FromBe16(s[1..3]));
      skipped := [];
      assert s == skipped + s;
    }
  }

  lemma HostFound(s: seq<byte>, n: nat) returns (x: seq<byte>, rest: seq<byte>)
    requires 3 + n <= |s| && s[0] == 0 && n == FromBe16(s[1..3])
    ensures |x| == n < 65536 && s == HostField(x) + rest
  {
    x, rest := s[3..3 + n], s[3 + n..];
    Be16OfFromBe16(s[1..3]);
    assert s[..3] == [0] + s[1..3];
  }

  lemma {:induction false} ExtensionsFound(s: seq<byte>) returns (l: Listing, t: seq<byte>)
    requires Found(Extensions(s))
    ensures ListingFits(l) && l.skipped == [] && s == OthersBytes(l.others) + (SniField(l) + t)
    ensures Extensions(s) == Names(t)
    decreases |s|
  {
    hide Names;
    Be16OfFromBe16(s[..2]);
    var len := FromBe16(s[2..4]) as int;
    if s[..2] != [0, 0] {
      assert FromBe16(s[..2]) != 0;
      var e := Other(s[..2], s[4..4 + len]);
      Be16OfFromBe16(s[2..4]);
      assert s == OtherBytes(e) + s[4 + len..];
      var m;
      m, t := ExtensionsFound(s[4 + len..]);
      l := m.(others := [e] + m.others);
      assert l.others[1..] == m.others;
      AppendAssoc(OtherBytes(e), OthersBytes(m.others), SniField(m) + t);
    } else {
      l, t := Listing([], s[2..4], s[4..6], []), s[6..];
      assert s == SniField(l) + t;
    }
  }

  lemma Vector8Found(s: seq<byte>) returns (v: seq<byte>, t: seq<byte>)
    requires SkipVector8(s).Go?
    ensures |v| < 256 && s == Vector8(v) + t && SkipVector8(s) == Go(t)
  {
    var n := s[0] as int;
    v, t := s[1..1 + n], s[1 + n..];
    assert s[1..][n..] == t;
  }

  lemma Vector16Found(s: seq<byte>) returns (v: seq<byte>, t: seq<byte>)
    requires SkipVector16(s).Go?
    ensures |v| < 65536 && s == Vector16(v) + t && SkipVector16(s) == Go(t)
  {
    var n := FromBe16(s[..2]) as int;
    v, t := s[2..2 + n], s[2 + n..];
    Be16OfFromBe16(s[..2]);
    assert s[2..][n..] == t;
  }

  lemma OpeningFound(s: seq<byte>) returns (o: Opening, t: seq<byte>)
    requires Found(Sni(s)) || Sni(s) == TlsExtensionMissing
    ensures OpeningFits(o) && s == OpeningBytes(o) + t
  {
    hide Extensions, SkipVector8, SkipVector16;
    var session, s1 := Vector8Found(s[43..]);
    var suites, s2 := Vector16Found(s1);
    var compression, s3 := Vector8Found(s2);
    o, t := Opening(s[..5], s[6..9], s[9..43], session, suites, compression), s3;
    assert s[..43] == s[..5] + ([1] + s[6..9] + s[9..43]);
    assert s == s[..43] + s[43..];
    assert s[43..] == (Vector8(session) + (Vector16(suites) + Vector8(compression))) + t;
  }

  /** Whatever gave a host name, in UTF-8 or not, was put together like that. */
  lemma HelloFound(s: seq<byte>) returns (x: seq<byte>)
    requires Found(Sni(s))
    ensures Carries(s, x)
  {
    hide Sni, Extensions, Names, OpeningBytes, OthersBytes, SniField, HostField, Triples;
    var o, t := OpeningFound(s);
    OpeningRead(o, t);
    var m, u := ExtensionsFound(t[2..]);
    var skipped, y, rest := NamesFound(u);
    TriplesSkippable(skipped);
    var l := m.(skipped := skipped);
    x := y;
    SameField(l, m);
    assert t == t[..2] + t[2..];
    assert s == Hello(o, t[..2], l, x, rest);
  }

  lemma SameField(l: Listing, m: Listing)
    requires l.size == m.size && l.list == m.list
    ensures SniField(l) == SniField(m)
  {
  }

  /** The answer is the host name `x` if and only if these bytes carry it and it is UTF-8. */
  lemma NameExactly(s: seq<byte>, x: seq<byte>)
    ensures Sni(s) == Name(x) <==> Carries(s, x) && Utf8(x)
    ensures Carries(s, x) && !Utf8(x) ==> Sni(s) == InvalidSni
  {
    hide Sni, Utf8, Hello;
    if Carries(s, x) {
      var o, block, l, rest :|
        OpeningFits(o) && |block| == 2 && block != [0, 0] && ListingFits(l) && s == Hello(o, block, l, x, rest);
      HelloRead(o, block, l, x, rest);
    }
    if Sni(s) == Name(x) {
      var y := HelloFound(s);
      CarriedOnce(s, x, y);
    }
  }

  lemma CarriedOnce(s: seq<byte>, x: seq<byte>, y: seq<byte>)
    requires Sni(s) == Name(x) && Carries(s, y)
    ensures x == y && Utf8(x)
  {
    hide Sni, Utf8, Hello;
    var o, block, l, rest :|
      OpeningFits(o) && |block| == 2 && block != [0, 0] && ListingFits(l) && s == Hello(o, block, l, y, rest);
    HelloRead(o, block, l, y, rest);
  }

  /** An invalid name is reported if and only if the bytes carry one that is not UTF-8. */
  lemma InvalidExactly(s: seq<byte>)
    ensures Sni(s) == InvalidSni <==> exists x :: Carries(s, x) && !Utf8(x)
  {
    hide Sni, Utf8, Carries;
    if Sni(s) == InvalidSni {
      var x := HelloFound(s);
      NameExactly(s, x);
    }
    if x :| Carries(s, x) && !Utf8(x) {
      NameExactly(s, x);
    }
  }

  /** Missing extensions are reported if and only if the two bytes in front of them are zero. */
  lemma MissingExactly(s: seq<byte>)
    ensures Sni(s) == TlsExtensionMissing <==>
            exists o, rest {:trigger OpeningBytes(o) + ([0, 0] + rest)} ::
              OpeningFits(o) && s == OpeningBytes(o) + ([0, 0] + rest)
  {
    hide Sni, Extensions, OpeningBytes;
    if Sni(s) == TlsExtensionMissing {
      var o, t := OpeningFound(s);
      OpeningRead(o, t);
      NeverMissing(t);
      assert t == [0, 0] + t[2..];
    }
    if o, rest :| OpeningFits(o) && s == OpeningBytes(o) + ([0, 0] + rest) {
      OpeningRead(o, [0, 0] + rest);
    }
  }

  lemma NeverMissing(t: seq<byte>)
    ensures AtBlock(t) == TlsExtensionMissing ==> |t| >= 2 && t[0] == 0 && t[1] == 0
  {
    hide Extensions;
    if |t| >= 2 {
      ExtensionsNeverMissing(t[2..]);
    }
  }

  lemma {:induction false} ExtensionsNeverMissing(s: seq<byte>)
    ensures Extensions(s) != TlsExtensionMissing && Extensions(s) != UnknownProtocol
    decreases |s|
  {
    if |s| >= 4 {
      var len := FromBe16(s[2..4]) as int;
      if |s| >= 4 + len {
        ExtensionsNeverMissing(s[4 + len..]);
      }
      if |s| >= 6 {
        NamesNeverMissing(s[6..]);
      }
    }
  }

  lemma {:induction false} NamesNeverMissing(s: seq<byte>)
    ensures Names(s) != TlsExtensionMissing && Names(s) != UnknownProtocol
    decreases |s|
  {
    if |s| >= 3 {
      NamesNeverMissing(s[3..]);
    }
  }

  /** An unknown protocol is reported if and only if there is a handshake type and it is not 1. */
  lemma UnknownExactly(s: seq<byte>)
    ensures Sni(s) == UnknownProtocol <==> |s| >= 6 && s[5] != 1
  {
    if |s| >= 43 {
      AfterRandomKnown(s[43..]);
    }
  }

  lemma AfterRandomKnown(s: seq<byte>)
    ensures AfterRandom(s) != UnknownProtocol
  {
    hide Extensions;
    if SkipVector8(s).Go? {
      var t := SkipVector8(s).rest;
      if SkipVector16(t).Go? {
        var u := SkipVector16(t).rest;
        if SkipVector8(u).Go? && |SkipVector8(u).rest| >= 2 {
          ExtensionsNeverMissing(SkipVector8(u).rest[2..]);
        }
      }
    }
  }

  /** So every record with a message of another type is, however much of it and of what follows it has arrived. */
  lemma OtherMessages(kind: byte, h: ClientHello, rest: seq<byte>, arrived: seq<byte>)
    requires WellFormed(h) && kind != 1 && arrived <= Message(kind, h) + rest
    ensures Sni(Message(kind, h) + rest) == UnknownProtocol
    ensures Sni(Peek(arrived)) == UnknownProtocol
  {
    hide Sni, HelloBody;
    assert (Message(kind, h) + rest)[5] == kind;
    hide Message, WellFormed;
    UnknownExactly(Message(kind, h) + rest);
    UnknownExactly(Peek(arrived));
  }

  /** And so is every peek that came too early to see the type. */
  lemma PeekUnknown(arrived: seq<byte>)
    ensures Sni(Peek(arrived)) == UnknownProtocol <==> |arrived| <= 5 || arrived[5] != 1
  {
    hide Sni;
    UnknownExactly(Peek(arrived));
  }

  // ----- a text that ends too early -----

  /** A stretch of bytes, and the answer to a text that ends inside it. */
  datatype Field = Field(size: nat, cut: Sniffed)

  /** The answer to a text that ends `n` bytes into these fields. */
  function CutAnswer(fs: seq<Field>, n: nat): (r: Sniffed) {
    if fs == [] then IoEof else if n < fs[0].size then fs[0].cut else CutAnswer(fs[1..], n - fs[0].size)
  }

  /** Lengths of one byte and whatever is skipped panic; the other lengths, the types and the name report the end. */
  function OpeningFields(o: Opening): (r: seq<Field>) {
    [Field(3, Panics), Field(2, IoEof), Field(1, Panics), Field(3, IoEof), Field(34, Panics)] + VectorFields(o)
  }

  function VectorFields(o: Opening): (r: seq<Field>) {
    [Field(1 + |o.session|, Panics), Field(2, IoEof), Field(|o.suites| + 1 + |o.compression|, Panics)]
  }

  function OtherFields(es: seq<Other>): (r: seq<Field>) {
    if es == [] then [] else [Field(4, IoEof), Field(|es[0].data|, Panics)] + OtherFields(es[1..])
  }

  function NameFields(l: Listing, x: seq<byte>): (r: seq<Field>) {
    [Field(6, IoEof), Field(|l.skipped| + 1, Panics), Field(2 + |x|, IoEof)]
  }

  function Fields(o: Opening, l: Listing, x: seq<byte>): (r: seq<Field>) {
    OpeningFields(o) + ([Field(2, IoEof)] + (OtherFields(l.others) + NameFields(l, x)))
  }

  function Total(fs: seq<Field>): (n: nat) {
    if fs == [] then 0 else fs[0].size + Total(fs[1..])
  }

  lemma {:induction false} CutAppend(fs: seq<Field>, gs: seq<Field>, n: nat)
    ensures CutAnswer(fs + gs, n) == if n < Total(fs) then CutAnswer(fs, n) else CutAnswer(gs, n - Total(fs))
    decreases |fs|
  {
    if fs == [] {
      assert fs + gs == gs;
    } else {
      assert (fs + gs)[1..] == fs[1..] + gs;
      if n >= fs[0].size {
        CutAppend(fs[1..], gs, n - fs[0].size);
      }
    }
  }

  lemma CutOne(f: Field, n: nat)
    ensures Total([f]) == f.size && (n < f.size ==> CutAnswer([f], n) == f.cut)
  {
    assert [f][1..] == [];
  }

  lemma CutTwo(f: Field, g: Field, n: nat)
    ensures Total([f, g]) == f.size + g.size
    ensures n < f.size + g.size ==> CutAnswer([f, g], n) == if n < f.size then f.cut else g.cut
  {
    assert [f, g] == [f] + [g];
    assert [f, g][1..] == [g];
    CutAppend([f], [g], n);
    CutOne(f, n);
    CutOne(g, n);
    CutOne(g, if n < f.size then 0 else n - f.size);
  }

  lemma CutThree(f: Field, g: Field, h: Field, n: nat)
    ensures Total([f, g, h]) == f.size + g.size + h.size
    ensures n < f.size + g.size + h.size ==>
              CutAnswer([f, g, h], n) == if n < f.size then f.cut else if n < f.size + g.size then g.cut else h.cut
  {
    assert [f, g, h] == [f] + [g, h];
    assert [f, g, h][1..] == [g, h];
    CutAppend([f], [g, h], n);
    CutOne(f, n);
    CutTwo(g, h, 0);
    CutTwo(g, h, if n < f.size then 0 else n - f.size);
  }

  lemma TakeBehind(a: seq<byte>, b: seq<byte>, n: nat)
    requires |a| <= n <= |a| + |b|
    ensures (a + b)[..n] == a + b[..n - |a|]
  {
  }

  lemma {:induction false} SkippedCut(s: seq<byte>, n: nat)
    requires Skippable(s) && n <= |s|
    ensures Names(s[..n]) == Panics
    decreases |s|
  {
    if n >= 3 {
      assert s[..n][3..] == s[3..][..n - 3];
      SkippedCut(s[3..], n - 3);
    }
  }

  lemma NamesCut(skipped: seq<byte>, x: seq<byte>, n: nat)
    requires Triples(skipped) && |x| < 65536 && n < |skipped| + 3 + |x|
    ensures Names((skipped + HostField(x))[..n]) == if n <= |skipped| then Panics else IoEof
  {
    TriplesSkippable(skipped);
    var s := skipped + HostField(x);
    if n <= |skipped| {
      assert s[..n] == skipped[..n];
      SkippedCut(skipped, n);
    } else {
      TakeBehind(skipped, HostField(x), n);
      NamesOfData(skipped, HostField(x)[..n - |skipped|]);
      HostCut(x, n - |skipped|);
    }
  }

  lemma HostCut(x: seq<byte>, n: nat)
    requires |x| < 65536 && 1 <= n < 3 + |x|
    ensures Names(HostField(x)[..n]) == IoEof
  {
    var t := HostField(x)[..n];
    assert t[0] == 0;
    if n >= 3 {
      assert HostField(x) == [0] + Be16(|x|) + x;
      assert t[1..3] == Be16(|x|);
    }
  }

  /** From the type of the server name extension on. */
  lemma SniCut(l: Listing, x: seq<byte>, n: nat)
    requires ListingFits(l) && |x| < 65536 && n < 9 + |l.skipped| + |x|
    ensures Extensions((SniField(l) + (l.skipped + HostField(x)))[..n]) == CutAnswer(NameFields(l, x), n)
  {
    hide Names, Triples, HostField, CutAnswer;
    CutThree(Field(6, IoEof), Field(|l.skipped| + 1, Panics), Field(2 + |x|, IoEof), n);
    HostSize(x);
    var t := l.skipped + HostField(x);
    var s := (SniField(l) + t)[..n];
    if n < 6 {
      assert n >= 4 ==> s[..2] == [0, 0];
    } else {
      TakeBehind(SniField(l), t, n);
      SniFieldRead(l, t[..n - 6]);
      NamesCut(l.skipped, x, n - 6);
    }
  }

  lemma HostSize(x: seq<byte>)
    requires |x| < 65536
    ensures |HostField(x)| == 3 + |x|
  {
  }

  lemma OtherCut(e: Other, n: nat)
    requires OtherFits(e) && n < 4 + |e.data|
    ensures Extensions(OtherBytes(e)[..n]) == if n < 4 then IoEof else Panics
  {
    var s := OtherBytes(e)[..n];
    if n >= 4 {
      assert OtherBytes(e) == e.kind + Be16(|e.data|) + e.data;
      assert s[..2] == e.kind && s[2..4] == Be16(|e.data|);
    }
  }

  lemma {:induction false} OthersCut(es: seq<Other>, l: Listing, x: seq<byte>, n: nat)
    requires (forall i :: 0 <= i < |es| ==> OtherFits(es[i])) && ListingFits(l) && |x| < 65536
    requires n < |OthersBytes(es)| + (9 + |l.skipped| + |x|)
    ensures Extensions((OthersBytes(es) + (SniField(l) + (l.skipped + HostField(x))))[..n])
         == CutAnswer(OtherFields(es) + NameFields(l, x), n)
    decreases |es|
  {
    hide Extensions, CutAnswer, NameFields, HostField, SniField, ListingFits;
    var t := SniField(l) + (l.skipped + HostField(x));
    if es == [] {
      assert OthersBytes(es) + t == t;
      assert OtherFields(es) + NameFields(l, x) == NameFields(l, x);
      SniCut(l, x, n);
    } else {
      var e, rest := es[0], es[1..];
      var pair := [Field(4, IoEof), Field(|e.data|, Panics)];
      var u := OthersBytes(rest) + t;
      assert |OtherBytes(e)| == 4 + |e.data|;
      hide OtherBytes;
      AppendAssoc(OtherBytes(e), OthersBytes(rest), t);
      AppendAssoc(pair, OtherFields(rest), NameFields(l, x));
      CutAppend(pair, OtherFields(rest) + NameFields(l, x), n);
      CutTwo(pair[0], pair[1], n);
      if n < 4 + |e.data| {
        TakeAppend(OtherBytes(e), u, n);
        OtherCut(e, n);
      } else {
        ListingSize(l, x);
        TakeBehind(OtherBytes(e), u, n);
        OtherRead(e, u[..n - |OtherBytes(e)|]);
        OthersCut(rest, l, x, n - |OtherBytes(e)|);
      }
    }
  }

  lemma ListingSize(l: Listing, x: seq<byte>)
    requires ListingFits(l) && |x| < 65536
    ensures |SniField(l) + (l.skipped + HostField(x))| == 9 + |l.skipped| + |x|
  {
  }

  lemma Vector8Cut(v: seq<byte>, n: nat)
    requires |v| < 256 && n < 1 + |v|
    ensures SkipVector8(Vector8(v)[..n]) == Stop(Panics)
  {
  }

  lemma Vector16Cut(v: seq<byte>, n: nat)
    requires |v| < 65536 && n < 2 + |v|
    ensures SkipVector16(Vector16(v)[..n]) == Stop(if n < 2 then IoEof else Panics)
  {
    assert n >= 2 ==> Vector16(v)[..n][..2] == Be16(|v|);
  }

  lemma VectorsCut(o: Opening, n: nat)
    requires OpeningFits(o) && n < |o.session| + |o.suites| + |o.compression| + 4
    ensures AfterRandom((Vector8(o.session) + (Vector16(o.suites) + Vector8(o.compression)))[..n])
         == CutAnswer(VectorFields(o), n)
  {
    var a, b, c := Vector8(o.session), Vector16(o.suites), Vector8(o.compression);
    assert b == Be16(|o.suites|) + o.suites;
    CutThree(Field(1 + |o.session|, Panics), Field(2, IoEof), Field(|o.suites| + 1 + |o.compression|, Panics), n);
    assert |a| == 1 + |o.session| && |b| == 2 + |o.suites| && |c| == 1 + |o.compression|;
    hide SkipVector8, SkipVector16, Vector8, Vector16, CutAnswer, Extensions;
    if n < |a| {
      TakeAppend(a, b + c, n);
      Vector8Cut(o.session, n);
    } else {
      var k := n - |a|;
      TakeBehind(a, b + c, n);
      ReadVector(o.session, (b + c)[..k]);
      if k < |b| {
        TakeAppend(b, c, k);
        Vector16Cut(o.suites, k);
      } else {
        TakeBehind(b, c, k);
        SkipVector16Of(o.suites, c[..k - |b|]);
        Vector8Cut(o.compression, k - |b|);
      }
    }
  }

  lemma ReadVector(v: seq<byte>, t: seq<byte>)
    requires |v| < 256
    ensures SkipVector8(Vector8(v) + t) == Go(t)
  {
    SkipVector8Of(v, t);
  }

  lemma OpeningCut(o: Opening, n: nat)
    requires OpeningFits(o) && n < |OpeningBytes(o)|
    ensures Sni(OpeningBytes(o)[..n]) == CutAnswer(OpeningFields(o), n)
    ensures Total(OpeningFields(o)) == |OpeningBytes(o)|
  {
    hide AfterRandom, CutAnswer, Total;
    var first := [Field(3, Panics), Field(2, IoEof), Field(1, Panics)];
    var second := [Field(3, IoEof), Field(34, Panics)];
    assert OpeningFields(o) == first + (second + VectorFields(o));
    CutAppend(first, second + VectorFields(o), n);
    CutThree(first[0], first[1], first[2], n);
    TotalAppend(first, second + VectorFields(o));
    TotalAppend(second, VectorFields(o));
    CutTwo(second[0], second[1], 0);
    CutThree(VectorFields(o)[0], VectorFields(o)[1], VectorFields(o)[2], 0);
    if n >= 6 {
      CutAppend(second, VectorFields(o), n - 6);
      CutTwo(second[0], second[1], n - 6);
    }
    var s := OpeningBytes(o)[..n];
    if n >= 43 {
      VectorsCut(o, n - 43);
      assert s[43..] == (Vector8(o.session) + (Vector16(o.suites) + Vector8(o.compression)))[..n - 43];
    }
  }

  lemma {:induction false} TotalAppend(fs: seq<Field>, gs: seq<Field>)
    ensures Total(fs + gs) == Total(fs) + Total(gs)
    decreases |fs|
  {
    if fs == [] {
      assert fs + gs == gs;
    } else {
      assert (fs + gs)[1..] == fs[1..] + gs;
      TotalAppend(fs[1..], gs);
    }
  }

  /** Wherever a hello ends before the end of its host name, the field it ends in decides the answer. */
  lemma HelloCut(o: Opening, block: seq<byte>, l: Listing, x: seq<byte>, n: nat)
    requires OpeningFits(o) && |block| == 2 && block != [0, 0] && ListingFits(l) && |x| < 65536
    requires n < |Hello(o, block, l, x, [])|
    ensures Sni(Hello(o, block, l, x, [])[..n]) == CutAnswer(Fields(o, l, x), n)
  {
    hide Sni, Extensions, CutAnswer, Total, OpeningFits, OpeningBytes, OpeningFields;
    hide OthersBytes, OtherFields, NameFields, SniField, HostField;
    var last := OthersBytes(l.others) + (SniField(l) + (l.skipped + HostField(x)));
    var behind := OtherFields(l.others) + NameFields(l, x);
    assert HostField(x) + [] == HostField(x);
    assert Hello(o, block, l, x, []) == OpeningBytes(o) + (block + last);
    CutAppend(OpeningFields(o), [Field(2, IoEof)] + behind, n);
    if n < |OpeningBytes(o)| {
      TakeAppend(OpeningBytes(o), block + last, n);
      OpeningCut(o, n);
    } else {
      OpeningTotal(o);
      var k := n - |OpeningBytes(o)|;
      TakeBehind(OpeningBytes(o), block + last, n);
      OpeningRead(o, (block + last)[..k]);
      CutAppend([Field(2, IoEof)], behind, k);
      CutOne(Field(2, IoEof), k);
      if k >= 2 {
        TakeBehind(block, last, k);
        assert (block + last)[..k][2..] == last[..k - 2];
        ListingSize(l, x);
        OthersCut(l.others, l, x, k - 2);
      }
    }
  }

  lemma OpeningTotal(o: Opening)
    requires OpeningFits(o)
    ensures Total(OpeningFields(o)) == |OpeningBytes(o)|
  {
    hide Sni, CutAnswer;
    OpeningCut(o, 0);
  }
}
