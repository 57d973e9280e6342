/** The copy loop that feeds a local connection into the tunnel. */
module CopyModel {
  import opened Bytes
  import opened Framing
  import opened Sockets
  import opened Proxy

  class CopyBuffer {
    var readDone: bool
    var pos: nat
    var cap: nat
    var amt: nat
    const buf: array<byte>
    /** The non-empty slices received so far. */
    ghost var received: seq<seq<byte>>
    /** All slices that the reader's script brings. */
    ghost const expected: seq<seq<byte>>

    constructor (size: nat, ghost expected: seq<seq<byte>>)
      requires 0 < size <= MAX_PACKET_SIZE
      ensures fresh(buf) && buf.Length == size && Fresh() && this.expected == expected
    {
      this.expected := expected;
      readDone, pos, cap, amt := false, 0, 0, 0;
      buf := new byte[size](_ => 0);
      received := [];
    }

    ghost predicate Fresh()
      reads this
    {
      !readDone && pos == cap == 0 && amt == 0 && received == [] && 0 < buf.Length <= MAX_PACKET_SIZE
    }

    /** The slice that waits for the writer. */
    ghost function Waiting(): (r: seq<byte>)
      requires pos <= cap <= buf.Length
      reads this, buf
    {
      buf[pos..cap]
    }

    /** The slices so far and those the script still brings are the expected ones, one for each move but the last. */
    ghost predicate OnCourse(reader: ReadSocket)
      reads `received, reader
    {
      && received + Reads(reader.script, buf.Length, reader.incoming) == expected
      && Moves(reader.plan) == Moves(reader.script) + |received| + reader.empties
    }

    lemma AllReceived(reader: ReadSocket)
      requires OnCourse(reader) && reader.incoming == [] && reader.Account()
      ensures received == expected && |expected| + reader.empties <= Moves(reader.plan)
      ensures Lead(reader.plan, |expected| + reader.empties) <= reader.tally.stalls
    {
      hide ReadSocket.Account;
      assert received + [] == received;
      reader.LeadMet(|expected| + reader.empties);
    }

    /** The buffer against the reader alone: every byte read was accepted or waits, in order. */
    ghost predicate Conserves(reader: ReadSocket)
      reads this, buf, reader
    {
      && 0 < buf.Length <= MAX_PACKET_SIZE
      && pos <= cap <= buf.Length
      && Packets(received)
      && Flatten(received) == reader.consumed
      && amt <= |reader.consumed|
      && reader.consumed[amt..] == Waiting()
      && (pos < cap ==> received != [] && received[|received| - 1] == Waiting())
      && (readDone ==> reader.incoming == [])
      && OnCourse(reader)
      && reader.Account() && reader.empties == (if readDone then 1 else 0)
      && (readDone ==> reader.NeverDry())
    }

    /** The buffer against the writer: it holds every finished read, and in flight is what waits. */
    ghost predicate Feeds(proxy: ProxyStream)
      reads this, buf, proxy, proxy.writer
    {
      && pos <= cap <= buf.Length
      && (proxy.InFlight() ==> pos < cap)
      && proxy.slices == if pos < cap && !proxy.InFlight() && received != [] then received[..|received| - 1] else received
    }

    ghost predicate Valid(reader: ReadSocket, proxy: ProxyStream)
      reads this, buf, reader, proxy, proxy.writer, proxy.writer.cipher, proxy.writer.cipher.nonce, proxy.stream
    {
      && proxy.writer.cipher.nonce != buf
      && Conserves(reader)
      && proxy.Valid() && Feeds(proxy)
    }

    ghost function Tallied(reader: ReadSocket, proxy: ProxyStream): (t: Tally)
      reads reader, proxy, proxy.stream
    {
      Sum(reader.tally, proxy.stream.tally)
    }

    /** The reading step: fills the empty buffer, or learns that the input has ended. */
    method Fill(reader: ReadSocket) returns (r: Poll<IoResult<()>>)
      requires Conserves(reader) && pos == cap && !readDone
      modifies this, buf, reader
      ensures Conserves(reader) && amt == old(amt)
      ensures reader.consumed + reader.incoming == old(reader.consumed + reader.incoming)
      ensures r.Ready? ==> |reader.script| < |old(reader.script)|
      ensures pos < cap ==> received == old(received) + [Waiting()]
      ensures pos == cap ==> received == old(received)
      ensures reader.tally == Note(old(reader.tally), r)
      ensures r.Ready? && r.value.Err? ==> r.value.error == SocketError
    {
      hide ReadSocket.Account, ReadSocket.NeverDry, Reads, Moves, Flatten;
      ghost var left := reader.incoming;
      ReadsStep(reader.script, buf.Length, left);
      var p := reader.PollReadInto(buf);
      var n := Count(p);
      assert left == left[..n] + left[n..];
      if p.Pending? {
        assert buf[..0] == [];
        return Pending;
      } else if p.value.Err? {
        assert buf[..0] == [];
        return Ready(Err(p.value.error));
      }
      if n == 0 {
        readDone := true;
        assert buf[..0] == [];
      } else {
        pos := 0;
        cap := n;
        FlattenSnoc(received, buf[..n]);
        AppendAssoc(received, [buf[..n]], Reads(reader.script, buf.Length, reader.incoming));
        received := received + [buf[..n]];
        assert reader.consumed[amt..] == buf[0..n];
      }
      return Ready(Ok(()));
    }

    /** `Fill`, with a writer that has taken everything read before. */
    method Refill(reader: ReadSocket, ghost proxy: ProxyStream) returns (r: Poll<IoResult<()>>)
      requires Valid(reader, proxy) && pos == cap && !readDone
      modifies this, buf, reader
      ensures Valid(reader, proxy)
      ensures reader.consumed + reader.incoming == old(reader.consumed + reader.incoming)
      ensures r.Ready? ==> |reader.script| < |old(reader.script)|
      ensures reader.tally == Note(old(reader.tally), r)
      ensures r.Ready? && r.value.Err? ==> r.value.error == SocketError
    {
      hide ProxyStream.Valid, Flatten, ReadSocket.Account, ReadSocket.NeverDry, OnCourse;
      r := Fill(reader);
      if pos < cap {
        assert received[..|received| - 1] == old(received);
      }
    }

    /** The waiting slice fits one packet, so the writer accepts all of it or none. */
    lemma WaitingFits(reader: ReadSocket)
      requires Conserves(reader) && pos < cap
      ensures Packet(Waiting()) && received == received[..|received| - 1] + [Waiting()]
    {
      assert Packet(received[|received| - 1]);
    }

    /** One offer of the waiting slice; what the writer accepts is no longer waiting. */
    method Offer(reader: ReadSocket, proxy: ProxyStream) returns (p: Poll<IoResult<nat>>)
      requires Valid(reader, proxy) && pos < cap
      modifies this`pos, this`amt
      modifies proxy, proxy.writer, proxy.writer.cipher, proxy.writer.cipher.nonce, proxy.stream
      ensures Valid(reader, proxy)
      ensures if p.Ready? && p.value.Ok? then pos == cap && p.value.value > 0 else pos < cap
      ensures proxy.stream.tally == Note(old(proxy.stream.tally), p) && proxy.stream.closed == old(proxy.stream.closed)
      ensures proxy.stream.flushes == old(proxy.stream.flushes)
      ensures p.Ready? && p.value.Err? ==>
                p.value.error == SocketError || (proxy.stream.closed && p.value.error == UnexpectedEof)
    {
      hide ProxyStream.Valid, Flatten, ReadSocket.Account, ReadSocket.NeverDry, OnCourse;
      WaitingFits(reader);
      p := proxy.PollWrite(buf[pos..cap]);
      if p.Ready? && p.value.Ok? {
        var i := p.value.value;
        assert i == cap - pos;
        pos := pos + i;
        amt := amt + i;
        assert buf[pos..cap] == [];
      }
    }

    /** The writing loop: offers the waiting slice until the writer has accepted all of it. */
    method Pour(reader: ReadSocket, proxy: ProxyStream) returns (r: Poll<IoResult<()>>)
      requires Valid(reader, proxy)
      modifies this`pos, this`amt
      modifies proxy, proxy.writer, proxy.writer.cipher, proxy.writer.cipher.nonce, proxy.stream
      ensures Valid(reader, proxy)
      ensures r.Ready? && r.value.Ok? <==> pos == cap
      ensures proxy.stream.tally == Note(old(proxy.stream.tally), r) && proxy.stream.closed == old(proxy.stream.closed)
      ensures proxy.stream.flushes == old(proxy.stream.flushes)
      ensures r.Ready? && r.value.Err? ==>
                r.value.error == SocketError || (proxy.stream.closed && r.value.error == UnexpectedEof)
    {
      hide ProxyStream.Valid, Flatten, ReadSocket.Account, ReadSocket.NeverDry, OnCourse;
      while pos < cap
        invariant Valid(reader, proxy)
        invariant proxy.stream.tally == old(proxy.stream.tally) && proxy.stream.closed == old(proxy.stream.closed)
        invariant proxy.stream.flushes == old(proxy.stream.flushes)
        decreases cap - pos
      {
        var p := Offer(reader, proxy);
        if p.Pending? {
          return Pending;
        } else if p.value.Err? {
          return Ready(Err(p.value.error));
        }
        if p.value.value == 0 {
          return Ready(Err(WriteZero));
        }
      }
      return Ready(Ok(()));
    }

    /** The flush at the end. */
    method Finish(ghost reader: ReadSocket, proxy: ProxyStream) returns (r: Poll<IoResult<nat>>)
      requires Valid(reader, proxy)
      modifies proxy.stream
      ensures Valid(reader, proxy)
      ensures r.Ready? && r.value.Ok? ==> r.value.value == amt
      ensures proxy.stream.tally == Note(old(proxy.stream.tally), r) && proxy.stream.closed == old(proxy.stream.closed)
      ensures proxy.stream.flushes == old(proxy.stream.flushes) + (if r.Ready? && r.value.Ok? then 1 else 0)
      ensures r.Ready? && r.value.Err? ==> r.value.error == SocketError
    {
      hide ProxyStream.Valid, Flatten, ReadSocket.Account, ReadSocket.NeverDry, OnCourse;
      var p := proxy.PollFlush();
      if p.Pending? {
        return Pending;
      } else if p.value.Err? {
        return Ready(Err(p.value.error));
      }
      return Ready(Ok(amt));
    }

    /** One turn of the copy loop; `over` tells whether the poll returns with `r`. */
    method Turn(reader: ReadSocket, proxy: ProxyStream) returns (over: bool, r: Poll<IoResult<nat>>)
      requires Valid(reader, proxy)
      modifies this, buf, reader
      modifies proxy, proxy.writer, proxy.writer.cipher, proxy.writer.cipher.nonce, proxy.stream
      ensures Valid(reader, proxy)
      ensures reader.consumed + reader.incoming == old(reader.consumed + reader.incoming)
      ensures over && r.Ready? && r.value.Ok? ==> pos == cap && readDone && r.value.value == amt
      ensures !over ==> (|reader.script| < |old(reader.script)| ||
                         (reader.script == old(reader.script) && cap - pos < old(cap - pos)))
      ensures Tallied(reader, proxy) == if over then Note(old(Tallied(reader, proxy)), r) else old(Tallied(reader, proxy))
      ensures proxy.stream.closed == old(proxy.stream.closed)
      ensures proxy.stream.flushes == old(proxy.stream.flushes) + (if over && r.Ready? && r.value.Ok? then 1 else 0)
      ensures over && r.Ready? && r.value.Err? ==>
                r.value.error == SocketError || (proxy.stream.closed && r.value.error == UnexpectedEof)
    {
      hide ProxyStream.Valid, CopyBuffer.Conserves;
      if pos == cap && !readDone {
        var p := Refill(reader, proxy);
        if p.Pending? {
          return true, Pending;
        } else if p.value.Err? {
          return true, Ready(Err(p.value.error));
        }
      }

      if pos < cap {
        var p := Pour(reader, proxy);
        if p.Pending? {
          return true, Pending;
        } else if p.value.Err? {
          return true, Ready(Err(p.value.error));
        }
      }

      if pos == cap && readDone {
        over := true;
        r := Finish(reader, proxy);
        return;
      }
      return false, Pending;
    }

    /**
     * One poll of the copy. `Ok` comes only after the input has ended with every byte of it accepted,
     * turned into chunks and taken by the socket; the count returned is the number of bytes read. The poll
     * is pending exactly when one of the two sockets stalled in it, and an open socket's failure is the only error.
     */
    method PollCopy(reader: ReadSocket, proxy: ProxyStream) returns (r: Poll<IoResult<nat>>)
      requires Valid(reader, proxy)
      modifies this, buf, reader
      modifies proxy, proxy.writer, proxy.writer.cipher, proxy.writer.cipher.nonce, proxy.stream
      ensures Valid(reader, proxy)
      ensures reader.consumed + reader.incoming == old(reader.consumed + reader.incoming)
      ensures r.Ready? && r.value.Ok? ==>
                && reader.incoming == [] && r.value.value == |reader.consumed|
                && proxy.slices == received == expected && !proxy.InFlight()
                && |expected| < Moves(reader.plan) && Lead(reader.plan, |expected| + 1) <= reader.tally.stalls
      ensures Tallied(reader, proxy) == Note(old(Tallied(reader, proxy)), r)
      ensures proxy.stream.closed == old(proxy.stream.closed)
      ensures proxy.stream.flushes == old(proxy.stream.flushes) + (if r.Ready? && r.value.Ok? then 1 else 0)
      ensures r.Ready? && r.value.Err? ==>
                r.value.error == SocketError || (proxy.stream.closed && r.value.error == UnexpectedEof)
    {
      hide ProxyStream.Valid, Flatten, ReadSocket.Account, ReadSocket.NeverDry, OnCourse;
      while true
        invariant Valid(reader, proxy)
        invariant reader.consumed + reader.incoming == old(reader.consumed + reader.incoming)
        invariant Tallied(reader, proxy) == old(Tallied(reader, proxy)) && proxy.stream.closed == old(proxy.stream.closed)
        invariant proxy.stream.flushes == old(proxy.stream.flushes)
        decreases |reader.script|, cap - pos
      {
        var over, p := Turn(reader, proxy);
        if over {
          if readDone {
            AllReceived(reader);
          }
          return p;
        }
      }
    }
  }
}
