/** The copy loop in the other direction: from the tunnel to the local connection. */
module CopyBackModel {
  import opened Bytes
  import opened Sockets
  import opened Reader

  class CopyBack {
    var readDone: bool
    var pos: nat
    var cap: nat
    var amt: nat
    const buf: array<byte>

    constructor (size: nat)
      requires 0 < size
      ensures fresh(buf) && buf.Length == size && !readDone && pos == cap == amt == 0
    {
      readDone, pos, cap, amt := false, 0, 0, 0;
      buf := new byte[size](_ => 0);
    }

    /** Every decoded byte was written to the local connection or waits in the buffer, in order. */
    ghost predicate Conserves(reader: DecryptedReader, local: WriteSocket)
      reads this, buf, reader, local
    {
      && 0 < buf.Length && pos <= cap <= buf.Length
      && reader.delivered == local.sent + buf[pos..cap]
      && amt == |local.sent| && local.Account()
    }

    ghost predicate Valid(reader: DecryptedReader, wire: ReadSocket, local: WriteSocket)
      reads this, buf, reader, wire, local, reader.CipherObjects()
    {
      && buf !in reader.CipherObjects()
      && Conserves(reader, local)
      && reader.Valid() && reader.InStep(wire)
      && (readDone ==> reader.Verdict(wire, None))
      && wire.empties <= (if readDone then 1 else 0)
      && wire.Account() && (readDone ==> wire.Touched())
      && (!wire.Touched() ==> local.tally == Tally(0, 0))
    }

    /** Puts the bytes read at the front of the buffer. */
    method Store(out: seq<byte>)
      requires |out| <= buf.Length
      modifies this`pos, this`cap, buf
      ensures pos == 0 && cap == |out| && buf[pos..cap] == out
    {
      forall i | 0 <= i < |out| {
        buf[i] := out[i];
      }
      pos := 0;
      cap := |out|;
    }

    /** The reading step. A final error leaves nothing behind in the buffer. */
    method Fill(reader: DecryptedReader, wire: ReadSocket, ghost local: WriteSocket) returns (r: Poll<ReadResult<()>>)
      requires Valid(reader, wire, local) && pos == cap && !readDone
      modifies this, buf, reader, wire, reader.CipherObjects()
      ensures Conserves(reader, local)
      ensures wire.consumed + wire.incoming == old(wire.consumed + wire.incoming)
      ensures reader.cipher == old(reader.cipher) || (fresh(reader.cipher) && fresh(reader.cipher.nonce))
      ensures wire.tally == NoteRead(old(wire.tally), r)
      ensures if Final(r) then pos == cap && reader.Verdict(wire, Some(r.value.error)) else Valid(reader, wire, local)
      ensures wire.Account() && (Final(r) ==> wire.Touched())
      ensures r.Ready? && r.value.Done? && !readDone ==>
                (|wire.script| < |old(wire.script)| ||
                 (wire.script == old(wire.script) && reader.Buffered() < old(reader.Buffered())))
    {
      hide WriteSocket.Account, ReadSocket.Account, ReadSocket.Touched;
      hide DecryptedReader.Valid, DecryptedReader.Verdict, DecryptedReader.InStep, DecryptedReader.Buffered;
      var out;
      assert buf[pos..cap] == [];
      r, out := reader.PollReadDecrypted(wire, buf.Length);
      if r.Pending? || r.value.Failed? {
        return;
      }
      assert reader.Valid() && reader.InStep(wire) && this !in reader.CipherObjects();
      if |out| == 0 {
        readDone := true;
      } else {
        Store(out);
      }
    }

    /** The writing loop: the local socket may take any part of what waits. */
    method Pour(ghost reader: DecryptedReader, local: WriteSocket) returns (r: Poll<IoResult<()>>)
      requires Conserves(reader, local)
      modifies this`pos, this`amt, local
      ensures Conserves(reader, local)
      ensures cap - pos <= old(cap - pos) && (r.Ready? && r.value.Ok? ==> pos == cap)
      ensures local.tally == Note(old(local.tally), r)
      ensures local.closed == old(local.closed) && local.flushes == old(local.flushes)
      ensures r.Ready? && r.value.Err? ==> r.value.error == SocketError || (r.value.error == WriteZero && local.closed)
    {
      hide WriteSocket.Account;
      while pos < cap
        invariant old(pos) <= pos
        invariant Conserves(reader, local) && local.tally == old(local.tally)
        invariant local.closed == old(local.closed) && local.flushes == old(local.flushes)
        decreases cap - pos
      {
        ghost var sent := local.sent;
        var p := local.PollWrite(buf[pos..cap]);
        var i := Count(p);
        Shift(sent, buf[..], pos, i, cap);
        if p.Pending? {
          return Pending;
        } else if p.value.Err? {
          return Ready(Err(p.value.error));
        }
        if i == 0 {
          return Ready(Err(WriteZero));
        }
        pos := pos + i;
        amt := amt + i;
      }
      return Ready(Ok(()));
    }

    /** `Pour`, which leaves the tunnel alone. */
    method Deliver(ghost reader: DecryptedReader, ghost wire: ReadSocket, local: WriteSocket)
      returns (r: Poll<IoResult<()>>)
      requires Valid(reader, wire, local) && pos < cap
      modifies this`pos, this`amt, local
      ensures Valid(reader, wire, local)
      ensures cap - pos <= old(cap - pos) && (r.Ready? && r.value.Ok? ==> pos == cap)
      ensures local.tally == Note(old(local.tally), r)
      ensures local.closed == old(local.closed) && local.flushes == old(local.flushes)
      ensures r.Ready? && r.value.Err? ==> r.value.error == SocketError || (r.value.error == WriteZero && local.closed)
    {
      hide WriteSocket.Account, ReadSocket.Account, ReadSocket.Touched;
      hide DecryptedReader.Valid, DecryptedReader.Verdict, DecryptedReader.InStep;
      assert this !in reader.CipherObjects() && local !in reader.CipherObjects();
      if !wire.Touched() {
        reader.Untouched(wire);
      }
      r := Pour(reader, local);
      assert reader.Valid() && reader.InStep(wire);
    }

    /** The errors that end the copy for a reason of the local side leave everything in place. */
    static predicate FromReader(r: Poll<ReadResult<nat>>) {
      r.Ready? && r.value.Failed? && r.value.error != Io(SocketError) && r.value.error != Io(WriteZero)
    }

    /** The flush at the end. */
    method Finish(ghost reader: DecryptedReader, ghost wire: ReadSocket, local: WriteSocket)
      returns (r: Poll<ReadResult<nat>>)
      requires Valid(reader, wire, local) && readDone
      modifies local
      ensures Valid(reader, wire, local) && !FromReader(r)
      ensures r.Ready? && r.value.Done? ==> r.value.value == amt
      ensures local.tally == NoteRead(old(local.tally), r) && local.closed == old(local.closed)
      ensures local.flushes == old(local.flushes) + (if r.Ready? && r.value.Done? then 1 else 0)
      ensures r.Ready? && r.value.Failed? ==> r.value.error == Io(SocketError)
    {
      hide WriteSocket.Account, ReadSocket.Account, ReadSocket.Touched;
      hide DecryptedReader.Valid, DecryptedReader.Verdict, DecryptedReader.InStep, DecryptedReader.Buffered;
      assert local !in reader.CipherObjects() && reader.Valid() && reader.InStep(wire);
      var p := local.PollFlush();
      if p.Pending? {
        return Pending;
      } else if p.value.Err? {
        return Ready(Failed(Io(p.value.error)));
      }
      return Ready(Done(amt));
    }

    /** One turn of the copy loop; `over` tells whether the poll returns with `r`. */
    method Turn(reader: DecryptedReader, wire: ReadSocket, local: WriteSocket)
      returns (over: bool, r: Poll<ReadResult<nat>>)
      requires Valid(reader, wire, local)
      modifies this, buf, reader, wire, local, reader.CipherObjects()
      ensures wire.consumed + wire.incoming == old(wire.consumed + wire.incoming)
      ensures reader.cipher == old(reader.cipher) || (fresh(reader.cipher) && fresh(reader.cipher.nonce))
      ensures if over && FromReader(r)
              then Conserves(reader, local) && pos == cap && reader.Verdict(wire, Some(r.value.error))
              else Valid(reader, wire, local)
      ensures over && r.Ready? && r.value.Done? ==> readDone && pos == cap && r.value.value == amt
      ensures Sum(wire.tally, local.tally) == if over then NoteRead(old(Sum(wire.tally, local.tally)), r)
                                              else old(Sum(wire.tally, local.tally))
      ensures local.closed == old(local.closed)
      ensures !(over && r.Ready? && r.value.Done?) ==> local.flushes == old(local.flushes)
      ensures over && r == Ready(Failed(Io(WriteZero))) ==> local.closed
      ensures wire.Account() && (over && FromReader(r) ==> wire.Touched())
      ensures !over ==> (|wire.script| < |old(wire.script)| ||
                         (wire.script == old(wire.script) &&
                          (reader.Buffered() < old(reader.Buffered()) ||
                           (reader.Buffered() == old(reader.Buffered()) && cap - pos < old(cap - pos)))))
    {
      hide WriteSocket.Account, ReadSocket.Account, ReadSocket.Touched;
      hide DecryptedReader.Valid, DecryptedReader.Verdict, DecryptedReader.InStep, DecryptedReader.Buffered;
      if pos == cap && !readDone {
        var p := Fill(reader, wire, local);
        if p.Pending? {
          return true, Pending;
        } else if p.value.Failed? {
          if Final(p) {
            NotAWriteError(reader, wire, p.value.error);
          }
          return true, Ready(Failed(p.value.error));
        }
      }
      if pos < cap {
        var p := Deliver(reader, wire, local);
        if p.Pending? {
          return true, Pending;
        } else if p.value.Err? {
          return true, Ready(Failed(Io(p.value.error)));
        }
      }
      if pos == cap && readDone {
        over := true;
        r := Finish(reader, wire, local);
        return;
      }
      return false, Pending;
    }

    /**
     * One poll of the copy. Whenever it ends, by success or by an error of the tunnel, the local
     * connection has exactly what the reader delivered, and the reader's verdict on the wire is the reason.
     * It is pending exactly when one of the two sockets stalled in it.
     */
    method PollCopy(reader: DecryptedReader, wire: ReadSocket, local: WriteSocket) returns (r: Poll<ReadResult<nat>>)
      requires Valid(reader, wire, local)
      modifies this, buf, reader, wire, local, reader.CipherObjects()
      ensures wire.consumed + wire.incoming == old(wire.consumed + wire.incoming)
      ensures reader.cipher == old(reader.cipher) || (fresh(reader.cipher) && fresh(reader.cipher.nonce))
      ensures if FromReader(r)
              then local.sent == reader.delivered && reader.Verdict(wire, Some(r.value.error))
              else Valid(reader, wire, local)
      ensures r.Ready? && r.value.Done? ==>
                local.sent == reader.delivered && reader.Verdict(wire, None) && r.value.value == |local.sent|
      ensures Sum(wire.tally, local.tally) == NoteRead(old(Sum(wire.tally, local.tally)), r)
      ensures local.closed == old(local.closed) && local.Account()
      ensures !(r.Ready? && r.value.Done?) ==> local.flushes == old(local.flushes)
      ensures r == Ready(Failed(Io(WriteZero))) ==> local.closed
      ensures wire.Account() && (FromReader(r) || (r.Ready? && r.value.Done?) ==> wire.Touched())
    {
      hide WriteSocket.Account, ReadSocket.Account, ReadSocket.Touched;
      hide DecryptedReader.Valid, DecryptedReader.Verdict, DecryptedReader.InStep;
      while true
        invariant Valid(reader, wire, local)
        invariant wire.consumed + wire.incoming == old(wire.consumed + wire.incoming)
        invariant reader.cipher == old(reader.cipher) || (fresh(reader.cipher) && fresh(reader.cipher.nonce))
        invariant Sum(wire.tally, local.tally) == old(Sum(wire.tally, local.tally))
        invariant local.closed == old(local.closed) && local.flushes == old(local.flushes)
        decreases |wire.script|, reader.Buffered(), cap - pos
      {
        var over, p := Turn(reader, wire, local);
        if over {
          assert pos == cap ==> buf[pos..cap] == [] && local.sent + [] == local.sent;
          return p;
        }
      }
    }
  }

  lemma NotAWriteError(reader: DecryptedReader, wire: ReadSocket, e: ProtocolError)
    requires reader.Verdict(wire, Some(e))
    ensures e != Io(WriteZero)
  {
  }

  lemma Shift(sent: seq<byte>, b: seq<byte>, pos: nat, i: nat, cap: nat)
    requires pos + i <= cap <= |b|
    ensures sent + b[pos..cap] == (sent + b[pos..cap][..i]) + b[pos + i..cap]
  {
    assert b[pos..cap] == b[pos..cap][..i] + b[pos + i..cap];
  }
}
