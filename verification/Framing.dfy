/** The chunk format on the wire, and a one-shot decoder of a whole byte string. */
module Framing {
  import opened Bytes
  import opened CipherModel

  const MAX_PACKET_SIZE: nat := 0x3FFF
  const LENGTH_LEN: nat := 2 + TAG_LEN

  /** A cipher suite with the subkey of one connection direction. */
  datatype Session = Session(suite: Suite, subkey: seq<byte>)

  function SessionOf(s: Suite, key: seq<byte>, salt: seq<byte>): (k: Session) {
    Session(s, s.derive(key, salt))
  }

  function SealAt(k: Session, c: nat, p: seq<byte>): (r: seq<byte>) {
    k.suite.seal(k.subkey, NonceAt(k.suite.nonceLen, c), p)
  }

  function OpenAt(k: Session, c: nat, sealed: seq<byte>): (r: Option<seq<byte>>) {
    k.suite.open(k.subkey, NonceAt(k.suite.nonceLen, c), sealed)
  }

  predicate Packet(p: seq<byte>) {
    |p| <= MAX_PACKET_SIZE
  }

  predicate Packets(chunks: seq<seq<byte>>) {
    forall i :: 0 <= i < |chunks| ==> Packet(chunks[i])
  }

  // ----- encoding -----

  /** One chunk: the sealed length under counter `c`, the sealed data under `c + 1`. */
  function Frame(k: Session, c: nat, p: seq<byte>): (r: seq<byte>)
    requires Packet(p)
  {
    SealAt(k, c, Be16(|p|)) + SealAt(k, c + 1, p)
  }

  /** The frames of `chunks`: chunk number `i` uses counters `c + 2i` and `c + 2i + 1`. */
  function Frames(k: Session, c: nat, chunks: seq<seq<byte>>): (r: seq<byte>)
    requires Packets(chunks)
    decreases |chunks|
  {
    if chunks == [] then [] else Frame(k, c, chunks[0]) + Frames(k, c + 2, chunks[1..])
  }

  /** Everything one side sends for `chunks`. */
  function Stream(s: Suite, key: seq<byte>, salt: seq<byte>, chunks: seq<seq<byte>>): (r: seq<byte>)
    requires Packets(chunks)
  {
    salt + Frames(SessionOf(s, key, salt), 0, chunks)
  }

  // ----- decoding -----

  /** How a byte string ends, seen by the decoder. */
  datatype End = Clean | Truncated | BadLength | BadData | TooLong(size: nat)

  datatype Decoded = Decoded(chunks: seq<seq<byte>>, end: End)

  /** What the front of a byte string holds: a whole chunk of `size` wire bytes, or a reason to stop. */
  datatype Head = Stop(end: End) | Chunk(data: seq<byte>, size: nat)

  function HeadOf(k: Session, c: nat, w: seq<byte>): (h: Head)
    ensures h.Chunk? ==> 0 < h.size <= |w|
  {
    if w == [] then Stop(Clean)
    else if |w| < LENGTH_LEN then Stop(Truncated)
    else match OpenAt(k, c, w[..LENGTH_LEN])
      case None => Stop(BadLength)
      case Some(m) => if |m| != 2 then Stop(BadLength) else HeadData(k, c, FromBe16(m), w)
  }

  /** The rest of `HeadOf` once the length field was opened and says `len`. */
  function HeadData(k: Session, c: nat, len: nat, w: seq<byte>): (h: Head)
    requires LENGTH_LEN <= |w|
    ensures h.Chunk? ==> 0 < h.size <= |w|
  {
    var size := LENGTH_LEN + len + TAG_LEN;
    if len > MAX_PACKET_SIZE then Stop(TooLong(len))
    else if |w| < size then Stop(Truncated)
    else match OpenAt(k, c + 1, w[LENGTH_LEN..size])
      case None => Stop(BadData)
      case Some(p) => Chunk(p, size)
  }

  function Prepend(cs: seq<seq<byte>>, d: Decoded): (r: Decoded) {
    Decoded(cs + d.chunks, d.end)
  }

  function DecodeFrames(k: Session, c: nat, w: seq<byte>): (r: Decoded)
    decreases |w|
  {
    match HeadOf(k, c, w)
    case Stop(e) => Decoded([], e)
    case Chunk(p, size) => Prepend([p], DecodeFrames(k, c + 2, w[size..]))
  }

  function DecodeStream(s: Suite, key: seq<byte>, w: seq<byte>): (r: Decoded) {
    if |w| < s.saltLen then Decoded([], Truncated)
    else DecodeFrames(SessionOf(s, key, w[..s.saltLen]), 0, w[s.saltLen..])
  }

  // ----- the encoder -----

  lemma SealedLength(k: Session, c: nat, p: seq<byte>)
    requires Correct(k.suite)
    ensures |SealAt(k, c, p)| == |p| + TAG_LEN
    ensures OpenAt(k, c, SealAt(k, c, p)) == Some(p)
  {
  }

  lemma OpenedLength(k: Session, c: nat, w: seq<byte>)
    requires Correct(k.suite) && OpenAt(k, c, w).Some?
    ensures |OpenAt(k, c, w).value| + TAG_LEN == |w|
  {
  }

  lemma {:induction false} FramesAppend(k: Session, c: nat, a: seq<seq<byte>>, b: seq<seq<byte>>)
    requires Packets(a) && Packets(b)
    ensures Packets(a + b)
    ensures Frames(k, c, a + b) == Frames(k, c, a) + Frames(k, c + 2 * |a|, b)
    decreases |a|
  {
    if a == [] {
      assert a + b == b;
    } else {
      assert (a + b)[1..] == a[1..] + b;
      FramesAppend(k, c + 2, a[1..], b);
      assert c + 2 + 2 * |a[1..]| == c + 2 * |a|;
    }
  }

  /** Every frame is 34 bytes longer than its chunk. */
  lemma {:induction false} FramesLength(k: Session, c: nat, chunks: seq<seq<byte>>)
    requires Correct(k.suite) && Packets(chunks)
    ensures |Frames(k, c, chunks)| == 34 * |chunks| + |Flatten(chunks)|
    decreases |chunks|
  {
    if chunks != [] {
      SealedLength(k, c, Be16(|chunks[0]|));
      SealedLength(k, c + 1, chunks[0]);
      FramesLength(k, c + 2, chunks[1..]);
    }
  }

  lemma FramesSnoc(k: Session, c: nat, a: seq<seq<byte>>, p: seq<byte>)
    requires Packets(a) && Packet(p)
    ensures Packets(a + [p])
    ensures Frames(k, c, a + [p]) == Frames(k, c, a) + Frame(k, c + 2 * |a|, p)
  {
    FramesAppend(k, c, a, [p]);
    var d := c + 2 * |a|;
    assert [p][1..] == [];
    assert Frames(k, d, [p]) == Frame(k, d, p) + Frames(k, d + 2, []);
  }

  // ----- decoding what was encoded -----

  lemma HeadOfFrame(k: Session, c: nat, p: seq<byte>, rest: seq<byte>)
    requires Correct(k.suite) && Packet(p)
    ensures HeadOf(k, c, Frame(k, c, p) + rest) == Chunk(p, |Frame(k, c, p)|)
  {
    SealedLength(k, c, Be16(|p|));
    SealedLength(k, c + 1, p);
    var w := Frame(k, c, p) + rest;
    assert w[..LENGTH_LEN] == SealAt(k, c, Be16(|p|));
    assert w[LENGTH_LEN..|Frame(k, c, p)|] == SealAt(k, c + 1, p);
  }

  /** A frame holds the sealed size, high byte first, under counter `c`, then the sealed data under `c + 1`. */
  lemma FrameLayout(k: Session, c: nat, p: seq<byte>)
    requires Correct(k.suite) && Packet(p)
    ensures var f := Frame(k, c, p);
            && |f| == 18 + (|p| + 16)
            && OpenAt(k, c, f[..18]) == Some([|p| / 256, |p| % 256])
            && OpenAt(k, c + 1, f[18..]) == Some(p)
  {
    SealedLength(k, c, Be16(|p|));
    SealedLength(k, c + 1, p);
    var f := Frame(k, c, p);
    assert f[..18] == SealAt(k, c, Be16(|p|)) && f[18..] == SealAt(k, c + 1, p);
  }

  /** A size field up to 16383 is accepted, and the data is awaited; one above is refused with that size. */
  lemma SizeLimit(k: Session, c: nat, hi: byte, lo: byte, rest: seq<byte>)
    requires Correct(k.suite)
    ensures var size := 256 * hi as int + lo as int;
            var h := HeadOf(k, c, SealAt(k, c, [hi, lo]) + rest);
            && (size > 16383 ==> h == Stop(TooLong(size)))
            && (size <= 16383 && |rest| < size + 16 ==> h == Stop(Truncated))
            && (size <= 16383 && |rest| >= size + 16 ==>
                  h == match OpenAt(k, c + 1, rest[..size + 16])
                       case None => Stop(BadData)
                       case Some(p) => Chunk(p, 18 + size + 16))
  {
    SealedLength(k, c, [hi, lo]);
    var w := SealAt(k, c, [hi, lo]) + rest;
    var size := 256 * hi as int + lo as int;
    assert w[..18] == SealAt(k, c, [hi, lo]) && FromBe16([hi, lo]) == size;
    if |rest| >= size + 16 {
      assert w[18..18 + size + 16] == rest[..size + 16];
    }
  }

  /** A size field that does not open is refused as such. */
  lemma BadSize(k: Session, c: nat, w: seq<byte>)
    requires |w| >= 18 && OpenAt(k, c, w[..18]).None?
    ensures HeadOf(k, c, w) == Stop(BadLength)
  {
  }

  /** A frame cut anywhere inside is reported as truncated, never as corrupt or too long. */
  lemma HeadOfCutFrame(k: Session, c: nat, p: seq<byte>, n: nat)
    requires Correct(k.suite) && Packet(p) && 0 < n < |Frame(k, c, p)|
    ensures HeadOf(k, c, Frame(k, c, p)[..n]) == Stop(Truncated)
  {
    SealedLength(k, c, Be16(|p|));
    SealedLength(k, c + 1, p);
    if LENGTH_LEN <= n {
      assert Frame(k, c, p)[..n][..LENGTH_LEN] == SealAt(k, c, Be16(|p|));
    }
  }

  /** One whole frame at the front is decoded and the rest is decoded with the next counter. */
  lemma DecodeOneFrame(k: Session, c: nat, p: seq<byte>, rest: seq<byte>)
    requires Correct(k.suite) && Packet(p)
    ensures DecodeFrames(k, c, Frame(k, c, p) + rest) == Prepend([p], DecodeFrames(k, c + 2, rest))
  {
    HeadOfFrame(k, c, p, rest);
    assert (Frame(k, c, p) + rest)[|Frame(k, c, p)|..] == rest;
  }

  /** Round trip: decoding the frames of any chunk list, empty chunks included, gives the list back. */
  lemma {:induction false} DecodeOfFrames(k: Session, c: nat, chunks: seq<seq<byte>>)
    requires Correct(k.suite) && Packets(chunks)
    ensures DecodeFrames(k, c, Frames(k, c, chunks)) == Decoded(chunks, Clean)
    decreases |chunks|
  {
    if chunks != [] {
      DecodeOfFrames(k, c + 2, chunks[1..]);
      DecodeOneFrame(k, c, chunks[0], Frames(k, c + 2, chunks[1..]));
    }
  }

  /** Number of whole frames within the first `n` bytes of the frames of `chunks`. */
  function WholeFrames(k: Session, c: nat, chunks: seq<seq<byte>>, n: nat): (r: nat)
    requires Packets(chunks)
    ensures r <= |chunks|
    decreases |chunks|
  {
    if chunks == [] || n < |Frame(k, c, chunks[0])| then 0
    else 1 + WholeFrames(k, c + 2, chunks[1..], n - |Frame(k, c, chunks[0])|)
  }

  lemma TakePastAppend<T>(a: seq<T>, b: seq<T>, n: nat)
    requires |a| <= n <= |a| + |b|
    ensures (a + b)[..n] == a + b[..n - |a|]
  {
  }

  lemma TakeTail<T>(s: seq<T>, j: nat)
    requires 0 < j <= |s|
    ensures s[..j][1..] == s[1..][..j - 1]
    ensures s[..j] == [s[0]] + s[1..][..j - 1]
  {
  }

  lemma DecodePastFrame(k: Session, c: nat, p: seq<byte>, rest: seq<byte>, n: nat)
    requires Correct(k.suite) && Packet(p) && |Frame(k, c, p)| <= n <= |Frame(k, c, p) + rest|
    ensures DecodeFrames(k, c, (Frame(k, c, p) + rest)[..n])
         == Prepend([p], DecodeFrames(k, c + 2, rest[..n - |Frame(k, c, p)|]))
  {
    TakePastAppend(Frame(k, c, p), rest, n);
    DecodeOneFrame(k, c, p, rest[..n - |Frame(k, c, p)|]);
  }

  lemma DecodeWithinFrame(k: Session, c: nat, p: seq<byte>, rest: seq<byte>, n: nat)
    requires Correct(k.suite) && Packet(p) && n < |Frame(k, c, p)|
    ensures DecodeFrames(k, c, (Frame(k, c, p) + rest)[..n]) == Decoded([], if n == 0 then Clean else Truncated)
  {
    TakeAppend(Frame(k, c, p), rest, n);
    if n > 0 { HeadOfCutFrame(k, c, p, n); }
  }

  lemma {:induction false} WholeFramesFit(k: Session, c: nat, chunks: seq<seq<byte>>, n: nat)
    requires Packets(chunks)
    ensures var j := WholeFrames(k, c, chunks, n);
            Packets(chunks[..j]) && |Frames(k, c, chunks[..j])| <= n
    decreases |chunks|
  {
    var j := WholeFrames(k, c, chunks, n);
    if j > 0 {
      WholeFramesFit(k, c + 2, chunks[1..], n - |Frame(k, c, chunks[0])|);
      TakeTail(chunks, j);
    }
  }

  /** The end the decoder sees after `n` bytes of the frames of `chunks`, of which `whole` are whole. */
  function EndAt(k: Session, c: nat, whole: seq<seq<byte>>, n: nat): (e: End)
    requires Packets(whole)
  {
    if n == |Frames(k, c, whole)| then Clean else Truncated
  }

  /**
   * Any prefix of what the writer sends decodes to the whole chunks it holds, and the end is clean
   * exactly on a chunk boundary: no cut makes the decoder report corruption or an excessive length.
   */
  lemma {:induction false} DecodePrefix(k: Session, c: nat, chunks: seq<seq<byte>>, n: nat)
    requires Correct(k.suite) && Packets(chunks) && n <= |Frames(k, c, chunks)|
    ensures var whole := chunks[..WholeFrames(k, c, chunks, n)];
            && Packets(whole)
            && DecodeFrames(k, c, Frames(k, c, chunks)[..n]) == Decoded(whole, EndAt(k, c, whole, n))
    decreases |chunks|
  {
    hide HeadOf;
    var j := WholeFrames(k, c, chunks, n);
    if chunks == [] {
      DecodeEmpty(k, c);
    } else {
      var f, tail := Frame(k, c, chunks[0]), chunks[1..];
      if n < |f| {
        DecodeWithinFrame(k, c, chunks[0], Frames(k, c + 2, tail), n);
      } else {
        DecodePrefix(k, c + 2, tail, n - |f|);
        DecodePastFrame(k, c, chunks[0], Frames(k, c + 2, tail), n);
        TakeTail(chunks, j);
        EndAtNext(k, c, chunks[0], tail[..j - 1], n);
      }
    }
  }

  lemma DecodeEmpty(k: Session, c: nat)
    ensures DecodeFrames(k, c, []) == Decoded([], Clean)
  {
  }

  lemma EndAtNext(k: Session, c: nat, p: seq<byte>, whole: seq<seq<byte>>, n: nat)
    requires Packet(p) && Packets(whole) && |Frame(k, c, p)| <= n
    ensures Packets([p] + whole)
    ensures EndAt(k, c, [p] + whole, n) == EndAt(k, c + 2, whole, n - |Frame(k, c, p)|)
  {
    assert ([p] + whole)[1..] == whole;
  }

  // ----- decoding any byte string, split anywhere -----

  predicate Fatal(e: End) {
    e.BadLength? || e.BadData? || e.TooLong?
  }

  /** More bytes behind a whole chunk or a fatal error change nothing about it. */
  lemma HeadAppend(k: Session, c: nat, w: seq<byte>, r: seq<byte>)
    requires HeadOf(k, c, w).Chunk? || Fatal(HeadOf(k, c, w).end)
    ensures HeadOf(k, c, w + r) == HeadOf(k, c, w)
  {
    TakeAppend(w, r, LENGTH_LEN);
    var m := OpenAt(k, c, w[..LENGTH_LEN]);
    if m.Some? && |m.value| == 2 {
      var size := LENGTH_LEN + FromBe16(m.value) + TAG_LEN;
      if size <= |w| {
        assert (w + r)[LENGTH_LEN..size] == w[LENGTH_LEN..size];
      }
    }
  }

  lemma DecodeChunk(k: Session, c: nat, w: seq<byte>, r: seq<byte>)
    requires HeadOf(k, c, w).Chunk?
    ensures var h := HeadOf(k, c, w);
            DecodeFrames(k, c, w + r) == Prepend([h.data], DecodeFrames(k, c + 2, w[h.size..] + r))
  {
    HeadAppend(k, c, w, r);
    DropAppend(w, r, HeadOf(k, c, w).size);
  }

  /** After a clean end, decoding goes on where it stopped. */
  lemma {:induction false} DecodeResume(k: Session, c: nat, w: seq<byte>, cs: seq<seq<byte>>, r: seq<byte>)
    requires DecodeFrames(k, c, w) == Decoded(cs, Clean)
    ensures DecodeFrames(k, c, w + r) == Prepend(cs, DecodeFrames(k, c + 2 * |cs|, r))
    decreases |w|
  {
    hide HeadOf;
    var h := HeadOf(k, c, w);
    if h.Stop? {
      DecodeNothing(k, c, w, r);
    } else {
      var rest := cs[1..];
      ResumeTail(k, c, w, cs);
      DecodeResume(k, c + 2, w[h.size..], rest, r);
      DecodeChunk(k, c, w, r);
      PrependTwice(h.data, rest, DecodeFrames(k, c + 2 * |cs|, r));
    }
  }

  lemma DecodeNothing(k: Session, c: nat, w: seq<byte>, r: seq<byte>)
    requires HeadOf(k, c, w) == Stop(Clean)
    ensures DecodeFrames(k, c, w + r) == Prepend([], DecodeFrames(k, c, r))
  {
    assert w + r == r;
  }

  lemma ResumeTail(k: Session, c: nat, w: seq<byte>, cs: seq<seq<byte>>)
    requires DecodeFrames(k, c, w) == Decoded(cs, Clean) && HeadOf(k, c, w).Chunk?
    ensures var h := HeadOf(k, c, w);
            && cs != [] && cs == [h.data] + cs[1..]
            && DecodeFrames(k, c + 2, w[h.size..]) == Decoded(cs[1..], Clean)
  {
    var h := HeadOf(k, c, w);
    assert ([h.data] + DecodeFrames(k, c + 2, w[h.size..]).chunks)[1..] == DecodeFrames(k, c + 2, w[h.size..]).chunks;
  }

  lemma PrependTwice(p: seq<byte>, cs: seq<seq<byte>>, d: Decoded)
    ensures Prepend([p], Prepend(cs, d)) == Prepend([p] + cs, d)
  {
    assert [p] + (cs + d.chunks) == [p] + cs + d.chunks;
  }

  /** More bytes never take back a chunk, and a fatal error is final. */
  lemma {:induction false} DecodeMonotone(k: Session, c: nat, w: seq<byte>, r: seq<byte>)
    ensures DecodeFrames(k, c, w).chunks <= DecodeFrames(k, c, w + r).chunks
    ensures Fatal(DecodeFrames(k, c, w).end) ==> DecodeFrames(k, c, w + r) == DecodeFrames(k, c, w)
    decreases |w|
  {
    var h := HeadOf(k, c, w);
    if h.Chunk? {
      DecodeChunk(k, c, w, r);
      DecodeMonotone(k, c + 2, w[h.size..], r);
    } else if Fatal(h.end) {
      HeadAppend(k, c, w, r);
    }
  }
}
