/** The encrypting half of a tunnel: chunks go out as frames through a socket that may stall anywhere. */
module Writer {
  import opened Bytes
  import opened CipherModel
  import opened Framing
  import opened Sockets

  datatype WriteState = AssemblePacket | Writing(pos: nat)

  lemma Advance(sent: seq<byte>, buffer: seq<byte>, pos: nat, n: nat)
    requires pos + n <= |buffer|
    ensures (sent + buffer[pos..][..n]) + buffer[pos + n..] == sent + buffer[pos..]
  {
    assert buffer[pos..] == buffer[pos..][..n] + buffer[pos + n..];
  }

  /** Appending one sealed length and one sealed body extends the stream by one chunk. */
  lemma StreamSnoc(s: Suite, key: seq<byte>, salt: seq<byte>, chunks: seq<seq<byte>>, p: seq<byte>,
                   sent: seq<byte>, pending: seq<byte>, length: seq<byte>, body: seq<byte>)
    requires Packets(chunks) && Packet(p)
    requires sent + pending == Stream(s, key, salt, chunks)
    requires length == SealAt(SessionOf(s, key, salt), 2 * |chunks|, Be16(|p|))
    requires body == SealAt(SessionOf(s, key, salt), 2 * |chunks| + 1, p)
    ensures Packets(chunks + [p])
    ensures sent + (pending + length + body) == Stream(s, key, salt, chunks + [p])
  {
    var k := SessionOf(s, key, salt);
    FramesSnoc(k, 0, chunks, p);
    assert sent + (pending + length + body) == (sent + pending) + (length + body);
  }

  class EncryptedWriter {
    const cipher: Cipher
    const salt: seq<byte>
    ghost const key: seq<byte>
    var buffer: seq<byte>
    var state: WriteState
    /** The plaintext chunks assembled so far. */
    ghost var chunks: seq<seq<byte>>

    ghost predicate Valid()
      reads this, cipher, cipher.nonce
    {
      && cipher.Valid()
      && cipher.subkey == cipher.suite.derive(key, salt)
      && Packets(chunks)
      && cipher.used == 2 * |chunks|
      && (state.Writing? ==> state.pos <= |buffer| && chunks != [])
      && (state.AssemblePacket? ==> buffer == if chunks == [] then salt else [])
    }

    /** The bytes assembled and not yet accepted by the socket. */
    ghost function Unsent(): (r: seq<byte>)
      requires state.Writing? ==> state.pos <= |buffer|
      reads this
    {
      if state.Writing? then buffer[state.pos..] else buffer
    }

    /** What the wire holds and will hold is exactly the salt and the frames of the chunks. */
    ghost predicate InStep(stream: WriteSocket)
      requires Valid()
      reads this, cipher, cipher.nonce, stream
    {
      stream.Account() && stream.sent + Unsent() == Stream(cipher.suite, key, salt, chunks)
    }

    constructor (suite: Suite, key: seq<byte>, salt: seq<byte>)
      requires 1 <= suite.nonceLen <= N_MAX
      ensures Valid() && fresh(cipher) && fresh(cipher.nonce)
      ensures cipher.suite == suite && this.key == key && this.salt == salt
      ensures state.AssemblePacket? && chunks == []
    {
      cipher := new Cipher(suite, key, salt);
      this.salt := salt;
      this.key := key;
      buffer := salt;
      state := AssemblePacket;
      chunks := [];
    }

    /** A fresh connection is in step: nothing was sent and the salt waits in the buffer. */
    lemma InStepAtStart(stream: WriteSocket)
      requires Valid() && state.AssemblePacket? && chunks == [] && stream.sent == [] && stream.Account()
      ensures InStep(stream)
    {
      assert [] + salt == salt + [];
    }

    /** The `AssemblePacket` arm: appends the frame of `buf` to the buffer. */
    method Assemble(buf: seq<byte>, ghost stream: WriteSocket)
      requires Valid() && InStep(stream) && state.AssemblePacket? && Packet(buf)
      modifies this, cipher, cipher.nonce
      ensures Valid() && InStep(stream)
      ensures state == Writing(0) && chunks == old(chunks) + [buf]
    {
      hide Stream, Packets, NonceAt, WriteSocket.Account;
      var length := cipher.Encrypt(Be16(|buf|));
      var body := cipher.Encrypt(buf);
      StreamSnoc(cipher.suite, key, salt, chunks, buf, stream.sent, buffer, length, body);
      buffer := buffer + length + body;
      chunks := chunks + [buf];
      state := Writing(0);
    }

    /** The inner loop of the `Writing` arm: offers the rest of the buffer until all of it was accepted. */
    method Drain(stream: WriteSocket) returns (r: Poll<IoResult<()>>)
      requires Valid() && InStep(stream) && state.Writing?
      modifies this`state, stream
      ensures Valid() && InStep(stream) && state.Writing?
      ensures r.Ready? && r.value.Ok? ==> Unsent() == []
      ensures stream.tally == Note(old(stream.tally), r) && stream.closed == old(stream.closed)
      ensures stream.flushes == old(stream.flushes)
      ensures r.Ready? && r.value.Err? ==>
                r.value.error == SocketError || (stream.closed && r.value.error == UnexpectedEof)
    {
      hide Stream, Packets, NonceAt, WriteSocket.Account, Cipher.Valid, Moved;
      ghost var goal := stream.sent + Unsent();
      while state.pos < |buffer|
        invariant state.Writing? && state.pos <= |buffer|
        invariant stream.Account() && stream.sent + buffer[state.pos..] == goal
        invariant stream.tally == old(stream.tally) && stream.closed == old(stream.closed)
        invariant stream.flushes == old(stream.flushes)
        decreases |buffer| - state.pos
      {
        ghost var before := stream.sent;
        var p := stream.PollWrite(buffer[state.pos..]);
        var n := Count(p);
        Advance(before, buffer, state.pos, n);
        if p.Pending? {
          return Pending;
        } else if p.value.Err? {
          return Ready(Err(p.value.error));
        }
        if n == 0 {
          return Ready(Err(UnexpectedEof));
        }
        state := Writing(state.pos + n);
      }
      return Ready(Ok(()));
    }

    /**
     * Writes `data` (its first MAX_PACKET_SIZE bytes) as one chunk. A pending or failed call leaves
     * the writer in the middle of that chunk, and the next call goes on with it whatever it is given.
     * It is pending exactly when the socket stalled.
     */
    method PollWriteEncrypted(stream: WriteSocket, data: seq<byte>) returns (r: Poll<IoResult<nat>>)
      requires Valid() && InStep(stream)
      modifies this, cipher, cipher.nonce, stream
      ensures Valid() && InStep(stream)
      ensures chunks == if old(state).AssemblePacket? then old(chunks) + [data[..Min(|data|, MAX_PACKET_SIZE)]]
                        else old(chunks)
      ensures r.Ready? && r.value.Ok? <==> state.AssemblePacket?
      ensures r.Ready? && r.value.Ok? ==>
                && r.value.value == Min(|data|, MAX_PACKET_SIZE)
                && stream.sent == Stream(cipher.suite, key, salt, chunks)
      ensures stream.tally == Note(old(stream.tally), r) && stream.closed == old(stream.closed)
      ensures stream.flushes == old(stream.flushes)
      ensures r.Ready? && r.value.Err? ==>
                r.value.error == SocketError || (stream.closed && r.value.error == UnexpectedEof)
    {
      hide Stream, Packets, NonceAt, WriteSocket.Account;
      var buf := data;
      if |buf| > MAX_PACKET_SIZE {
        buf := buf[..MAX_PACKET_SIZE];
      }
      assert buf == data[..Min(|data|, MAX_PACKET_SIZE)];

      while true
        invariant Valid() && InStep(stream)
        invariant chunks == if old(state).AssemblePacket? && state.Writing? then old(chunks) + [buf] else old(chunks)
        invariant old(state).Writing? ==> state.Writing?
        invariant stream.tally == old(stream.tally) && stream.closed == old(stream.closed)
        invariant stream.flushes == old(stream.flushes)
        decreases state.AssemblePacket?
      {
        match state
        case AssemblePacket =>
          Assemble(buf, stream);

        case Writing(_) =>
          var p := Drain(stream);
          if p.Pending? {
            return Pending;
          } else if p.value.Err? {
            return Ready(Err(p.value.error));
          }
          assert stream.sent + [] == stream.sent;
          state := AssemblePacket;
          buffer := [];
          return Ready(Ok(|buf|));
      }
    }
  }
}
