/** The whole tunnel: local connection, copy loop, proxy stream, wire, and the peer's reader. */
module Relay {
  import opened Bytes
  import opened CipherModel
  import opened Framing
  import opened Sockets
  import opened AddressCodec
  import opened Proxy
  import opened CopyModel
  import opened Reader
  import opened CopyBackModel

  /**
   * What a peer decodes from any part of the wire that has arrived: the whole chunks in it, never an
   * error of its own; all of the chunks, and a clean end, from all of the wire.
   */
  lemma DecodeArrived(s: Suite, key: seq<byte>, salt: seq<byte>, chunks: seq<seq<byte>>, w: seq<byte>)
    requires Correct(s) && |salt| == s.saltLen && Packets(chunks) && w <= Stream(s, key, salt, chunks)
    ensures var d := DecodeStream(s, key, w);
            && d.chunks <= chunks
            && (d.end.Clean? || d.end.Truncated?)
            && (w == Stream(s, key, salt, chunks) ==> d == Decoded(chunks, Clean))
  {
    hide DecodeFrames, Frames;
    if s.saltLen <= |w| {
      var k := SessionOf(s, key, salt);
      var frames, n := Frames(k, 0, chunks), |w| - |salt|;
      assert w[..s.saltLen] == salt;
      assert w[s.saltLen..] == frames[..n];
      DecodePrefix(k, 0, chunks, n);
      if w == Stream(s, key, salt, chunks) {
        assert frames[..n] == frames;
        DecodeOfFrames(k, 0, chunks);
      }
    }
  }

  // ----- schedules -----

  /** A schedule without a failure and with more moves than a copy can need for reading and for writing. */
  predicate Flows(reading: seq<Answer>, writing: seq<Answer>, readMoves: nat, writeMoves: nat) {
    && Failures(reading) == 0 && Failures(writing) == 0
    && readMoves < Moves(reading) && writeMoves < Moves(writing)
  }

  /** A schedule that carries a copy through `polls` polls: it flows, with fewer stalls than polls. */
  predicate Carries(reading: seq<Answer>, writing: seq<Answer>, polls: nat, readMoves: nat, writeMoves: nat) {
    Flows(reading, writing, readMoves, writeMoves) && Stalls(reading) + Stalls(writing) < polls
  }

  /** A copy that failed or spent all its polls on stalls had a schedule that does not carry it. */
  lemma NotCarried(input: ReadSocket, output: WriteSocket, polls: nat, readMoves: nat, writeMoves: nat)
    requires input.Account() && output.Account() && !output.closed
    requires input.script == [] ==> Moves(input.plan) <= readMoves || input.NeverDry()
    requires |output.sent| + output.flushes <= writeMoves
    requires var t := Sum(input.tally, output.tally); t.failures > 0 || t.stalls >= polls
    ensures !Carries(input.plan, output.plan, polls, readMoves, writeMoves)
  {
  }

  /** A list of spaces that brings all of `bytes` bytes and the end out of a stream of `length` bytes. */
  predicate Drains(script: seq<Answer>, rooms: seq<nat>, bytes: nat, length: nat) {
    && Failures(script) == 0 && length < Moves(script)
    && bytes + Stalls(script) < |rooms| && (forall i :: 0 <= i < |rooms| ==> 0 < rooms[i])
  }

  /** The most that goes on the wire for an input of `n` bytes: each of them in a chunk of its own. */
  function WireBound(salt: nat, header: nat, n: nat): (r: nat) {
    salt + header + 35 * n
  }

  // ----- from the local connection to the wire -----

  /**
   * Polls the copy until it is through, at most `polls` times. It is not through only if every poll was spent
   * on a stall, or a socket failed, or the peer refuses bytes.
   */
  method Send(copy: CopyBuffer, local: ReadSocket, proxy: ProxyStream, polls: nat) returns (ok: bool)
    requires copy.Valid(local, proxy)
    modifies copy, copy.buf, local
    modifies proxy, proxy.writer, proxy.writer.cipher, proxy.writer.cipher.nonce, proxy.stream
    ensures copy.Valid(local, proxy) && proxy.stream.closed == old(proxy.stream.closed)
    ensures local.consumed + local.incoming == old(local.consumed + local.incoming)
    ensures ok ==> local.incoming == [] && proxy.slices == copy.expected && !proxy.InFlight()
    ensures !ok && !proxy.stream.closed ==>
              var t, u := old(copy.Tallied(local, proxy)), copy.Tallied(local, proxy);
              && (t.failures < u.failures || u.stalls == t.stalls + polls)
              && proxy.stream.flushes == old(proxy.stream.flushes)
  {
    hide CopyBuffer.Valid;
    ok := false;
    for i := 0 to polls
      invariant copy.Valid(local, proxy) && proxy.stream.closed == old(proxy.stream.closed)
      invariant local.consumed + local.incoming == old(local.consumed + local.incoming)
      invariant copy.Tallied(local, proxy).failures == old(copy.Tallied(local, proxy).failures)
      invariant copy.Tallied(local, proxy).stalls == old(copy.Tallied(local, proxy).stalls) + i
      invariant proxy.stream.flushes == old(proxy.stream.flushes)
    {
      var r := copy.PollCopy(local, proxy);
      if r.Ready? {
        return r.value.Ok?;
      }
    }
  }

  /** What is due on the wire for the slices that the local connection brings: nothing if it brings none. */
  function Due(s: Suite, key: seq<byte>, salt: seq<byte>, target: Address, slices: seq<seq<byte>>): (r: seq<byte>)
    requires Encodable(target)
  {
    if slices == [] then [] else Stream(s, key, salt, PlainChunks(Serialize(target), slices))
  }

  ghost function UpObjects(up: CopyBuffer, local: ReadSocket, proxy: ProxyStream): (r: set<object>) {
    {up, up.buf, local, proxy, proxy.writer, proxy.writer.cipher, proxy.writer.cipher.nonce, proxy.stream}
  }

  /** The objects of the way up, before the first poll. */
  method Upward(s: Suite, key: seq<byte>, salt: seq<byte>, target: Address, input: seq<byte>,
                localScript: seq<Answer>, wireScript: seq<Answer>, closed: bool)
    returns (up: CopyBuffer, local: ReadSocket, proxy: ProxyStream)
    requires Correct(s) && Encodable(target)
    ensures fresh(UpObjects(up, local, proxy)) && up.Valid(local, proxy)
    ensures up.expected == Reads(localScript, MAX_PACKET_SIZE, input)
    ensures local.consumed + local.incoming == input && local.plan == localScript
    ensures proxy.target == target && proxy.writer.cipher.suite == s && proxy.writer.key == key && proxy.writer.salt == salt
    ensures proxy.stream.plan == wireScript && proxy.stream.closed == closed && proxy.stream.flushes == 0
    ensures up.Tallied(local, proxy) == Tally(0, 0)
  {
    hide Serialize, Reads, CopyBuffer.Valid, ProxyStream.Valid, WriteSocket.Account, ReadSocket.Account;
    var socket := new WriteSocket(wireScript, closed);
    proxy := new ProxyStream(s, key, salt, target, socket);
    local := new ReadSocket(localScript, input);
    up := new CopyBuffer(MAX_PACKET_SIZE, Reads(localScript, MAX_PACKET_SIZE, input));
    StartsEmpty(up, local, proxy);
    assert [] + input == input;
  }

  /**
   * The sending side alone. The wire carries a prefix of what is due for the slices that the schedule of the
   * local connection makes of the input, and all of it once the copy is through. A schedule that carries the copy
   * lets it get through, unless the peer refuses bytes.
   */
  method Sender(s: Suite, key: seq<byte>, salt: seq<byte>, target: Address, input: seq<byte>,
                localScript: seq<Answer>, wireScript: seq<Answer>, closed: bool, polls: nat)
    returns (sent: bool, wire: seq<byte>)
    requires Correct(s) && Encodable(target)
    ensures var slices := Reads(localScript, MAX_PACKET_SIZE, input);
            var due := Due(s, key, salt, target, slices);
            && wire <= due
            && (sent ==> wire == due && Flatten(slices) == input)
            && (!closed && Carries(localScript, wireScript, polls, |slices|, |due|) ==> sent)
    ensures closed ==> wire == [] && (sent ==> input == [])
  {
    hide Due, Flatten, Reads, Carries, Correct, CopyBuffer.Valid;
    var copy, local, proxy := Upward(s, key, salt, target, input, localScript, wireScript, closed);
    sent := Send(copy, local, proxy, polls);
    wire := proxy.stream.sent;
    WireSoFar(copy, local, proxy, input);
    if !sent && !closed {
      Unfinished(copy, local, proxy, input, polls);
    }
  }

  lemma StartsEmpty(copy: CopyBuffer, local: ReadSocket, proxy: ProxyStream)
    requires copy.Fresh() && proxy.Valid() && !proxy.InFlight() && proxy.slices == []
    requires local.consumed == [] && local.Account() && local.empties == 0 && local.script == local.plan
    requires copy.expected == Reads(local.script, copy.buf.Length, local.incoming)
    requires proxy.writer.cipher.nonce != copy.buf
    ensures copy.Valid(local, proxy)
  {
    assert Flatten([]) == [];
    assert [] + copy.expected == copy.expected;
  }

  lemma StreamPrefix(s: Suite, key: seq<byte>, salt: seq<byte>, header: seq<byte>, a: seq<seq<byte>>, b: seq<seq<byte>>)
    requires a <= b
    ensures Stream(s, key, salt, PlainChunks(header, a)) <= Stream(s, key, salt, PlainChunks(header, b))
  {
    hide Frames;
    var k, c := SessionOf(s, key, salt), PlainChunks(header, a);
    var d := PlainChunks(header, b)[|a|..];
    assert PlainChunks(header, b) == c + d;
    FramesAppend(k, 0, c, d);
    AppendAssoc(salt, Frames(k, 0, c), Frames(k, 2 * |c|, d));
  }

  lemma StreamLength(s: Suite, key: seq<byte>, salt: seq<byte>, header: seq<byte>, slices: seq<seq<byte>>)
    requires Correct(s) && Packets(slices)
    ensures var n := |Stream(s, key, salt, PlainChunks(header, slices))|;
            && 34 * |slices| <= n
            && n <= |salt| + 34 * |slices| + |header| + |Flatten(slices)|
  {
    FramesLength(SessionOf(s, key, salt), 0, PlainChunks(header, slices));
    if slices != [] {
      PlainBytes(header, slices);
    } else {
      assert PlainChunks(header, slices) == [];
    }
  }

  lemma DueLength(s: Suite, key: seq<byte>, salt: seq<byte>, target: Address, script: seq<Answer>, input: seq<byte>)
    requires Correct(s) && Encodable(target)
    ensures var slices := Reads(script, MAX_PACKET_SIZE, input);
            && |slices| <= |input|
            && |Due(s, key, salt, target, slices)| <= WireBound(|salt|, SerializedLen(target), |input|)
            && (slices != [] ==> Due(s, key, salt, target, slices) != [])
  {
    hide Reads, Stream, PlainChunks, Serialize;
    ReadsOfInput(script, MAX_PACKET_SIZE, input);
    StreamLength(s, key, salt, Serialize(target), Reads(script, MAX_PACKET_SIZE, input));
  }

  /** What the wire holds of what is due. */
  lemma WireSoFar(copy: CopyBuffer, local: ReadSocket, proxy: ProxyStream, input: seq<byte>)
    requires copy.Valid(local, proxy) && Correct(proxy.writer.cipher.suite) && local.consumed + local.incoming == input
    requires copy.expected == Reads(local.plan, MAX_PACKET_SIZE, input)
    ensures var w := proxy.writer;
            var due := Due(w.cipher.suite, w.key, w.salt, proxy.target, copy.expected);
            && proxy.stream.sent <= due
            && (proxy.stream.closed ==> proxy.stream.sent == [])
            && (local.incoming == [] && proxy.slices == copy.expected && !proxy.InFlight() ==>
                  && Flatten(copy.expected) == input && proxy.stream.sent == due
                  && (proxy.stream.closed ==> input == []))
  {
    assert Flatten([]) == [];
    hide Flatten, Reads, CopyBuffer.Valid, Stream, Serialize, PlainChunks, Correct, WriteSocket.Account;
    var w := proxy.writer;
    WireOfProxy(copy, local, proxy);
    DueLength(w.cipher.suite, w.key, w.salt, proxy.target, local.plan, input);
  }

  /** Reads the invariant of the copy as a statement about the wire. */
  lemma WireOfProxy(copy: CopyBuffer, local: ReadSocket, proxy: ProxyStream)
    requires copy.Valid(local, proxy)
    ensures var w := proxy.writer;
            var all := Stream(w.cipher.suite, w.key, w.salt, PlainChunks(Serialize(proxy.target), copy.expected));
            && proxy.stream.sent <= all
            && (!proxy.InFlight() && proxy.slices == copy.expected != [] ==> proxy.stream.sent == all)
            && (proxy.slices == [] || proxy.stream.closed ==> proxy.stream.sent == [])
            && proxy.slices <= copy.expected
    ensures proxy.slices == copy.expected && local.incoming == [] ==>
              Flatten(copy.expected) == local.consumed + local.incoming
  {
    var w, header := proxy.writer, Serialize(proxy.target);
    assert Frames(SessionOf(w.cipher.suite, w.key, w.salt), 0, []) == [];
    hide Frames, Flatten;
    var sent, now := proxy.stream.sent, Stream(w.cipher.suite, w.key, w.salt, w.chunks);
    assert sent + w.Unsent() == now;
    assert proxy.slices <= copy.received <= copy.expected;
    StreamPrefix(w.cipher.suite, w.key, w.salt, header, proxy.slices, copy.expected);
    if proxy.slices == [] {
      assert now == w.salt + [];
      assert |sent| + |w.salt| == |w.salt|;
    }
    if local.incoming == [] {
      assert local.consumed + local.incoming == local.consumed;
    }
  }

  /** The sockets of a copy account for their scripts, and the local one runs dry only before its end. */
  lemma CopyAccounts(copy: CopyBuffer, local: ReadSocket, proxy: ProxyStream)
    requires copy.Valid(local, proxy)
    ensures local.Account() && proxy.stream.Account() && Encodable(proxy.target)
    ensures local.script == [] ==> Moves(local.plan) <= |copy.expected| || local.NeverDry()
    ensures copy.Tallied(local, proxy) == Sum(local.tally, proxy.stream.tally)
  {
    hide Flatten, Reads, Stream, PlainChunks, ReadSocket.Account, WriteSocket.Account, ReadSocket.NeverDry;
    assert copy.OnCourse(local);
  }

  /** A copy that did not get through had a schedule that does not carry it. */
  lemma Unfinished(copy: CopyBuffer, local: ReadSocket, proxy: ProxyStream, input: seq<byte>, polls: nat)
    requires copy.Valid(local, proxy) && Correct(proxy.writer.cipher.suite) && local.consumed + local.incoming == input
    requires copy.expected == Reads(local.plan, MAX_PACKET_SIZE, input) && !proxy.stream.closed
    requires var t := copy.Tallied(local, proxy); t.failures > 0 || t.stalls >= polls
    ensures var w := proxy.writer;
            !Carries(local.plan, proxy.stream.plan, polls, |copy.expected|,
                     |Due(w.cipher.suite, w.key, w.salt, proxy.target, copy.expected)| + proxy.stream.flushes)
  {
    hide *;
    var w := proxy.writer;
    CopyAccounts(copy, local, proxy);
    WireSoFar(copy, local, proxy, input);
    NotCarried(local, proxy.stream, polls, |copy.expected|,
               |Due(w.cipher.suite, w.key, w.salt, proxy.target, copy.expected)| + proxy.stream.flushes);
  }

  // ----- the end-to-end theorem -----

  /** What the peer can obtain when the first read brings `first` bytes: only the end of the first packet is lost. */
  function Delivered(header: seq<byte>, input: seq<byte>, first: nat): (r: seq<byte>)
    requires first <= |input|
  {
    if first == 0 then [] else Cut(header + input[..first]) + input[first..]
  }

  /** Nothing is lost exactly when something is read and the first read fits a packet with the header. */
  lemma DeliveredComplete(header: seq<byte>, input: seq<byte>, first: nat)
    requires header != [] && first <= |input|
    ensures Delivered(header, input, first) == header + input <==> 0 < first && |header| + first <= MAX_PACKET_SIZE
    ensures |Delivered(header, input, first)| <= |header| + |input| && (input == [] ==> Delivered(header, input, first) == [])
    ensures |header| + first <= MAX_PACKET_SIZE ==> Delivered(header, input, first) <= header + input
    ensures 0 < first && |header| <= MAX_PACKET_SIZE ==> header <= Delivered(header, input, first)
  {
    assert input == input[..first] + input[first..];
    AppendAssoc(header, input[..first], input[first..]);
    CutLoses(header + input[..first], input[first..]);
  }

  /** The plaintext of the chunks for `input`, in terms of the first read. */
  lemma PlainOfReads(header: seq<byte>, script: seq<Answer>, input: seq<byte>)
    ensures var slices, first := Reads(script, MAX_PACKET_SIZE, input), FirstRead(script, MAX_PACKET_SIZE, |input|);
            var plain := Flatten(PlainChunks(header, slices));
            && plain <= Delivered(header, input, first)
            && (Flatten(slices) == input ==> plain == Delivered(header, input, first) && (input == [] <==> slices == []))
  {
    hide Reads, FirstRead;
    var slices, first := Reads(script, MAX_PACKET_SIZE, input), FirstRead(script, MAX_PACKET_SIZE, |input|);
    ReadsOfInput(script, MAX_PACKET_SIZE, input);
    if slices == [] {
      assert PlainChunks(header, slices) == [];
    } else {
      PlainBytes(header, slices);
      assert Flatten(slices)[first..] == Flatten(slices[1..]);
      assert Flatten(slices[1..]) <= input[first..];
    }
  }

  /** The peer: a fresh reader on the bytes that arrived. Spaces that drain the stream bring it to the end. */
  method Peer(s: Suite, key: seq<byte>, arrived: seq<byte>, script: seq<Answer>, rooms: seq<nat>)
    returns (out: seq<byte>, over: bool, verdict: Option<ProtocolError>)
    requires Correct(s)
    ensures var d := DecodeStream(s, key, arrived);
            && out <= Flatten(d.chunks)
            && (over ==> out == Flatten(d.chunks) && verdict == Report(d.end))
            && (Drains(script, rooms, |Flatten(d.chunks)|, |arrived|) ==> over)
  {
    hide DecodeStream, Flatten, Report, Correct;
    var peer := new DecryptedReader(s, key);
    var stream := new ReadSocket(script, arrived);
    assert [] + arrived == arrived;
    out, over, verdict := ReadAll(peer, stream, rooms);
  }

  /**
   * The end-to-end theorem. For every input, every schedule of the local socket, of the wire and of the
   * peer, every number of polls on both sides and every cut of the wire, the peer obtains a prefix of
   * `Delivered` without an error of its own. When the copy has finished and the wire is drained, it obtains all
   * of it, and a clean end unless the input was empty. That is address and input exactly when the first read
   * of the local connection brings something and fits a packet together with the address; the peer then reads
   * the target and is left with exactly the input. Schedules that carry the copy and drain the wire finish both.
   */
  method Tunnel(s: Suite, key: seq<byte>, salt: seq<byte>, target: Address, input: seq<byte>,
                localScript: seq<Answer>, wireScript: seq<Answer>, closed: bool, polls: nat,
                cut: nat, peerScript: seq<Answer>, rooms: seq<nat>)
    returns (sent: bool, out: seq<byte>, over: bool, verdict: Option<ProtocolError>)
    requires Correct(s) && |salt| == s.saltLen && Encodable(target)
    ensures var header, first := Serialize(target), FirstRead(localScript, MAX_PACKET_SIZE, |input|);
            var fits := 0 < first && |header| + first <= MAX_PACKET_SIZE;
            && out <= Delivered(header, input, first)
            && (over ==> verdict == None || verdict == Some(Io(UnexpectedEof)))
            && (|header| + first <= MAX_PACKET_SIZE ==> out <= header + input)
            && (sent && over && cut == 0 ==>
                  && out == Delivered(header, input, first)
                  && verdict == (if input == [] then Some(Io(UnexpectedEof)) else None)
                  && (out == header + input <==> fits)
                  && (input != [] ==> StartsWithAddress(out, target))
                  && (fits ==> ReadFrom(out) == Got(OnWire(target), SerializedLen(target))
                               && out[SerializedLen(target)..] == input))
    ensures closed ==> out == [] && (sent ==> input == [])
    ensures var slices, first := Reads(localScript, MAX_PACKET_SIZE, input), FirstRead(localScript, MAX_PACKET_SIZE, |input|);
            var due := Due(s, key, salt, target, slices);
            && (!closed && Carries(localScript, wireScript, polls, |slices|, |due|) ==> sent)
            && (Drains(peerScript, rooms, |Delivered(Serialize(target), input, first)|, |due|) ==> over)
  {
    hide Flatten, Serialize, DecodeStream, Reads, FirstRead, Carries, Due, Delivered, ReadFrom;
    var wire;
    sent, wire := Sender(s, key, salt, target, input, localScript, wireScript, closed, polls);
    var arrived := if cut <= |wire| then wire[..|wire| - cut] else [];
    out, over, verdict := Peer(s, key, arrived, peerScript, rooms);
    Arrived(s, key, salt, target, localScript, input, arrived, out);
    DeliveredComplete(Serialize(target), input, FirstRead(localScript, MAX_PACKET_SIZE, |input|));
    ReadOfSerialized(target, input);
    SerializedLayout(target, out);
    assert |Serialize(target)| <= MAX_PACKET_SIZE;
  }

  /** What `arrived` decodes to, seen from the input. */
  lemma Arrived(s: Suite, key: seq<byte>, salt: seq<byte>, target: Address, script: seq<Answer>,
                input: seq<byte>, arrived: seq<byte>, out: seq<byte>)
    requires Correct(s) && |salt| == s.saltLen && Encodable(target)
    requires arrived <= Due(s, key, salt, target, Reads(script, MAX_PACKET_SIZE, input))
    requires out <= Flatten(DecodeStream(s, key, arrived).chunks)
    ensures var d, slices := DecodeStream(s, key, arrived), Reads(script, MAX_PACKET_SIZE, input);
            var plain := Delivered(Serialize(target), input, FirstRead(script, MAX_PACKET_SIZE, |input|));
            && out <= Flatten(d.chunks) <= plain
            && (d.end.Clean? || d.end.Truncated?)
            && (arrived == Due(s, key, salt, target, slices) && Flatten(slices) == input ==>
                  && d.end == (if input == [] then Truncated else Clean)
                  && Flatten(d.chunks) == plain)
            && (arrived == [] ==> out == [])
            && (Flatten(slices) == input != [] ==> 0 < FirstRead(script, MAX_PACKET_SIZE, |input|))
  {
    assert Flatten([]) == [];
    hide Frames, DecodeFrames, Reads, FirstRead, Stream, PlainChunks, Delivered, DecodeStream, Flatten;
    var header, slices := Serialize(target), Reads(script, MAX_PACKET_SIZE, input);
    PlainOfReads(header, script, input);
    DeliveredComplete(header, input, FirstRead(script, MAX_PACKET_SIZE, |input|));
    NothingArrived(s, key);
    if slices != [] {
      var chunks := PlainChunks(header, slices);
      DecodeArrived(s, key, salt, chunks, arrived);
      FlattenPrefix(DecodeStream(s, key, arrived).chunks, chunks);
    }
  }

  lemma NothingArrived(s: Suite, key: seq<byte>)
    requires Correct(s)
    ensures DecodeStream(s, key, []) == Decoded([], Truncated)
  {
  }

  /**
   * On an unhindered connection, where every poll moves as much as it can, the peer is left with the target and
   * the input if and only if the input is not empty and fits the first packet together with the address. Every
   * longer input loses bytes, as many as the first read is too long.
   */
  method Unhindered(s: Suite, key: seq<byte>, salt: seq<byte>, target: Address, input: seq<byte>)
    returns (out: seq<byte>, verdict: Option<ProtocolError>)
    requires Correct(s) && |salt| == s.saltLen && Encodable(target)
    ensures out == Serialize(target) + input <==> 0 < |input| <= 16383 - SerializedLen(target)
    ensures input != [] ==> StartsWithAddress(out, target)
    ensures out == Delivered(Serialize(target), input, Min(|input|, MAX_PACKET_SIZE))
    ensures verdict == if input == [] then Some(Io(UnexpectedEof)) else None
  {
    hide Serialize, Delivered, Flatten, Reads, Due;
    var n := WireBound(|salt|, SerializedLen(target), |input|) + 2;
    var script := seq(n, _ => Move(MAX_PACKET_SIZE));
    var rooms := seq(n, _ => 1);
    OnlyMoves(script, MAX_PACKET_SIZE, |input|);
    DueLength(s, key, salt, target, script, input);
    DeliveredComplete(Serialize(target), input, Min(|input|, MAX_PACKET_SIZE));
    var sent, over;
    sent, out, over, verdict := Tunnel(s, key, salt, target, input, script, script, false, 1, 0, script, rooms);
  }

  /** A script without stalls and failures whose moves fill the space there is. */
  lemma {:induction false} OnlyMoves(script: seq<Answer>, room: nat, len: nat)
    requires forall i :: 0 <= i < |script| ==> script[i] == Move(room)
    ensures Stalls(script) == Failures(script) == 0 && Moves(script) == |script|
    ensures script != [] ==> FirstRead(script, room, len) == Min(len, room)
  {
    if script != [] {
      OnlyMoves(script[1..], room, len);
    }
  }

  // ----- from the wire to the local connection -----

  ghost function DownObjects(down: CopyBack, reader: DecryptedReader, wire: ReadSocket, local: WriteSocket): (r: set<object>)
    reads reader
  {
    {down, down.buf, reader, wire, local} + reader.CipherObjects()
  }

  /** The objects of the way back, before the first poll. */
  method Downward(s: Suite, key: seq<byte>, arrived: seq<byte>, wireScript: seq<Answer>, localScript: seq<Answer>,
                  closed: bool, size: nat)
    returns (down: CopyBack, reader: DecryptedReader, wire: ReadSocket, local: WriteSocket)
    requires Correct(s) && 0 < size
    ensures fresh({down, down.buf, reader, wire, local}) && reader.CipherObjects() == {}
    ensures down.Valid(reader, wire, local) && wire.Account()
    ensures reader.suite == s && reader.key == key && wire.plan == wireScript && local.plan == localScript
    ensures wire.consumed + wire.incoming == arrived && local.sent == [] && local.closed == closed && local.flushes == 0
    ensures Sum(wire.tally, local.tally) == Tally(0, 0)
  {
    hide *;
    wire := new ReadSocket(wireScript, arrived);
    local := new WriteSocket(localScript, closed);
    down := new CopyBack(size);
    reader := new DecryptedReader(s, key);
    assert [] + arrived == arrived;
    BackStartsEmpty(down, reader, wire, local);
    NothingTallied(wire.tally, local.tally);
  }

  lemma NothingTallied(t: Tally, u: Tally)
    requires t == u == Tally(0, 0)
    ensures Sum(t, u) == Tally(0, 0)
  {
  }

  /**
   * The way back. For every byte string that arrives, every schedule of both sockets, any buffer size and
   * any number of polls, the local connection receives a prefix of what the one-shot decoder finds in it;
   * when the copy ends, by success or by an error of the tunnel, all of it, and the verdict is the decoder's.
   * A schedule that carries the copy brings it to the end, unless the local side refuses bytes.
   */
  method Receive(s: Suite, key: seq<byte>, arrived: seq<byte>, wireScript: seq<Answer>, localScript: seq<Answer>,
                 closed: bool, size: nat, polls: nat)
    returns (written: seq<byte>, over: bool, verdict: Option<ProtocolError>)
    requires Correct(s) && 0 < size
    ensures var d := DecodeStream(s, key, arrived);
            && written <= Flatten(d.chunks)
            && (over ==> written == Flatten(d.chunks) && verdict == Report(d.end))
            && (!closed && Carries(wireScript, localScript, polls, |arrived| + 1, |Flatten(d.chunks)|) ==> over)
    ensures closed ==> written == []
  {
    hide *;
    var copy, reader, wire, local := Downward(s, key, arrived, wireScript, localScript, closed, size);
    var back := PollBack(copy, reader, wire, local, polls);
    over, verdict := back.Ended?, if back.Ended? then back.verdict else None;
    written := local.sent;
    local.Refused();
    WrittenSoFar(back, copy, reader, wire, local, arrived);
    if !over && !closed {
      NotEnded(back, copy, reader, wire, local, arrived, polls);
    }
  }

  lemma BackStartsEmpty(copy: CopyBack, reader: DecryptedReader, wire: ReadSocket, local: WriteSocket)
    requires 0 < copy.buf.Length && copy.pos == copy.cap == copy.amt == 0 && !copy.readDone
    requires reader.Valid() && reader.state.WaitSalt? && reader.Wire() == [] && reader.delivered == []
    requires wire.Account() && wire.consumed == [] && wire.empties == 0
    requires local.Account() && local.sent == [] && local.tally == Tally(0, 0)
    ensures copy.Valid(reader, wire, local) && reader.CipherObjects() == {}
  {
    assert local.sent + copy.buf[0..0] == [];
  }

  /** What one poll of the copy from the tunnel comes to. */
  datatype Back = Waiting | Ended(verdict: Option<ProtocolError>) | Broken

  /** What the copy has come to, against the decoder on the whole stream. */
  ghost predicate Settled(back: Back, copy: CopyBack, reader: DecryptedReader, wire: ReadSocket, local: WriteSocket,
                          total: seq<byte>)
    reads copy, copy.buf, reader, wire, local, reader.CipherObjects()
  {
    if back.Ended? then
      var d := DecodeStream(reader.suite, reader.key, total);
      local.sent == Flatten(d.chunks) && back.verdict == Report(d.end)
    else copy.Valid(reader, wire, local) && wire.consumed + wire.incoming == total
  }

  /** One poll of the copy from the tunnel: it waits for a stall, ends with the decoder's verdict, or breaks. */
  method PollBackOnce(copy: CopyBack, reader: DecryptedReader, wire: ReadSocket, local: WriteSocket)
    returns (back: Back)
    requires copy.Valid(reader, wire, local)
    modifies copy, copy.buf, reader, wire, local, reader.CipherObjects()
    ensures Settled(back, copy, reader, wire, local, old(wire.consumed + wire.incoming))
    ensures reader.cipher == old(reader.cipher) || (fresh(reader.cipher) && fresh(reader.cipher.nonce))
    ensures local.closed == old(local.closed) && local.Account()
    ensures wire.Account() && (back.Ended? ==> wire.Touched())
    ensures !back.Ended? ==> local.flushes == old(local.flushes)
    ensures var t, u := old(Sum(wire.tally, local.tally)), Sum(wire.tally, local.tally);
            && (back.Ended? ==> u == t)
            && (back.Waiting? ==> u == t.(stalls := t.stalls + 1))
            && (back.Broken? && !local.closed ==> u == t.(failures := t.failures + 1))
  {
    hide DecodeStream, Flatten, Report, DecryptedReader.Valid, DecryptedReader.Verdict, CopyBack.Valid;
    hide WriteSocket.Account, ReadSocket.Account, ReadSocket.Touched;
    var r := copy.PollCopy(reader, wire, local);
    if r.Pending? {
      return Waiting;
    } else if CopyBack.FromReader(r) {
      VerdictOfTotal(reader, wire, Some(r.value.error));
      return Ended(Some(r.value.error));
    } else if r.value.Done? {
      VerdictOfTotal(reader, wire, None);
      return Ended(None);
    }
    return Broken;
  }

  /**
   * Polls the copy from the tunnel until it is through, at most `polls` times. It is not through only if every
   * poll was spent on a stall, or a socket failed, or the local side refuses bytes.
   */
  method PollBack(copy: CopyBack, reader: DecryptedReader, wire: ReadSocket, local: WriteSocket, polls: nat)
    returns (back: Back)
    requires copy.Valid(reader, wire, local)
    modifies copy, copy.buf, reader, wire, local, reader.CipherObjects()
    ensures Settled(back, copy, reader, wire, local, old(wire.consumed + wire.incoming))
    ensures local.closed == old(local.closed) && local.Account()
    ensures !back.Ended? && !local.closed ==>
              var t, u := old(Sum(wire.tally, local.tally)), Sum(wire.tally, local.tally);
              && (t.failures < u.failures || u.stalls == t.stalls + polls)
              && local.flushes == old(local.flushes)
  {
    hide Settled, CopyBack.Valid, WriteSocket.Account;
    back := Waiting;
    ghost var total := wire.consumed + wire.incoming;
    NotYet(copy, reader, wire, local, total);
    for i := 0 to polls
      invariant back.Waiting? && Settled(back, copy, reader, wire, local, total)
      invariant reader.cipher == old(reader.cipher) || (fresh(reader.cipher) && fresh(reader.cipher.nonce))
      invariant local.closed == old(local.closed) && local.flushes == old(local.flushes) && local.Account()
      invariant Sum(wire.tally, local.tally).failures == old(Sum(wire.tally, local.tally).failures)
      invariant Sum(wire.tally, local.tally).stalls == old(Sum(wire.tally, local.tally).stalls) + i
    {
      NotYet(copy, reader, wire, local, total);
      back := PollBackOnce(copy, reader, wire, local);
      if !back.Waiting? {
        return;
      }
    }
  }

  lemma NotYet(copy: CopyBack, reader: DecryptedReader, wire: ReadSocket, local: WriteSocket, total: seq<byte>)
    ensures Settled(Waiting, copy, reader, wire, local, total)
       <==> copy.Valid(reader, wire, local) && wire.consumed + wire.incoming == total
    ensures copy.Valid(reader, wire, local) ==> local.Account()
  {
  }

  /** However it stands, what has reached the local connection is a prefix of what the whole stream decodes to. */
  lemma WrittenSoFar(back: Back, copy: CopyBack, reader: DecryptedReader, wire: ReadSocket, local: WriteSocket,
                     total: seq<byte>)
    requires Settled(back, copy, reader, wire, local, total)
    ensures var d := DecodeStream(reader.suite, reader.key, total);
            && local.sent <= Flatten(d.chunks)
            && (back.Ended? ==> local.sent == Flatten(d.chunks) && back.verdict == Report(d.end))
    ensures !back.Ended? ==> wire.Account() && (wire.script == [] ==> Moves(wire.plan) <= |total| + 1)
  {
    hide DecodeStream, Flatten, Report, DecryptedReader.Valid, DecryptedReader.Verdict, ReadSocket.Account;
    if !back.Ended? {
      wire.RunDry();
      reader.Refines();
      StreamMonotone(reader.suite, reader.key, wire.consumed, wire.incoming);
      FlattenPrefix(reader.chunks, DecodeStream(reader.suite, reader.key, wire.consumed + wire.incoming).chunks);
    }
  }

  /** Before the first read from the wire has succeeded, the local side was not even offered a byte. */
  lemma NothingBack(back: Back, copy: CopyBack, reader: DecryptedReader, wire: ReadSocket, local: WriteSocket,
                    total: seq<byte>)
    requires Settled(back, copy, reader, wire, local, total) && !back.Ended? && !wire.Touched()
    ensures local.sent == [] && local.tally == Tally(0, 0)
  {
    hide DecryptedReader.Valid, DecryptedReader.Verdict, WriteSocket.Account, ReadSocket.Account;
    reader.Untouched(wire);
  }

  /** A way back that did not end had a schedule that does not carry it. */
  lemma NotEnded(back: Back, copy: CopyBack, reader: DecryptedReader, wire: ReadSocket, local: WriteSocket,
                 total: seq<byte>, polls: nat)
    requires Settled(back, copy, reader, wire, local, total) && !back.Ended?
    requires local.Account() && !local.closed && local.flushes == 0
    requires var u := Sum(wire.tally, local.tally); u.failures > 0 || u.stalls >= polls
    ensures !Carries(wire.plan, local.plan, polls, |total| + 1,
                     |Flatten(DecodeStream(reader.suite, reader.key, total).chunks)|)
  {
    hide *;
    WrittenSoFar(back, copy, reader, wire, local, total);
    NotCarried(wire, local, polls, |total| + 1, |Flatten(DecodeStream(reader.suite, reader.key, total).chunks)|);
  }
}
