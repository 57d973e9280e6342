/** The client end of a tunnel: the target address travels in the first packet. */
module Proxy {
  import opened Bytes
  import opened CipherModel
  import opened Framing
  import opened Sockets
  import opened Writer
  import opened AddressCodec

  // ----- what the proxy turns a list of caller slices into -----

  /** What one packet can carry of `p`: the rest is dropped. */
  function Cut(p: seq<byte>): (r: seq<byte>)
    ensures Packet(r) && r <= p
    ensures r == p <==> Packet(p)
  {
    p[..Min(|p|, MAX_PACKET_SIZE)]
  }

  /** The chunks for the caller's slices: the header rides in front of the first one. */
  function PlainChunks(header: seq<byte>, slices: seq<seq<byte>>): (r: seq<seq<byte>>)
    ensures |r| == |slices| && Packets(r)
  {
    seq(|slices|, i requires 0 <= i < |slices| => Cut(if i == 0 then header + slices[0] else slices[i]))
  }

  lemma PlainChunksSnoc(header: seq<byte>, slices: seq<seq<byte>>, x: seq<byte>)
    ensures PlainChunks(header, slices + [x])
         == PlainChunks(header, slices) + [Cut(if slices == [] then header + x else x)]
  {
  }

  lemma PlainChunksTail(header: seq<byte>, slices: seq<seq<byte>>)
    requires slices != [] && Packets(slices)
    ensures PlainChunks(header, slices) == [Cut(header + slices[0])] + slices[1..]
  {
    forall i | 1 <= i < |slices|
      ensures PlainChunks(header, slices)[i] == slices[i]
    {
      assert Packet(slices[i]);
    }
  }

  /** The plaintext that reaches the peer: exactly the first packet may lose its end. */
  lemma PlainBytes(header: seq<byte>, slices: seq<seq<byte>>)
    requires slices != [] && Packets(slices)
    ensures Flatten(PlainChunks(header, slices)) == Cut(header + slices[0]) + Flatten(slices[1..])
  {
    PlainChunksTail(header, slices);
    assert ([Cut(header + slices[0])] + slices[1..])[1..] == slices[1..];
  }

  /** The header and every byte written arrive exactly when something was written and the first packet fits. */
  predicate FirstPacketFits(header: seq<byte>, slices: seq<seq<byte>>) {
    slices != [] && Packet(header + slices[0])
  }

  lemma PlainBytesComplete(header: seq<byte>, slices: seq<seq<byte>>)
    requires header != [] && Packets(slices)
    ensures Flatten(PlainChunks(header, slices)) == header + Flatten(slices) <==> FirstPacketFits(header, slices)
  {
    if slices == [] {
      assert PlainChunks(header, slices) == [];
    } else {
      PlainBytes(header, slices);
      AppendAssoc(header, slices[0], Flatten(slices[1..]));
      CutLoses(header + slices[0], Flatten(slices[1..]));
    }
  }

  lemma CutLoses(p: seq<byte>, rest: seq<byte>)
    ensures Cut(p) + rest == p + rest <==> Packet(p)
  {
    if !Packet(p) {
      assert |Cut(p) + rest| < |p + rest|;
    }
  }

  /** While the first packet fits, the plaintext is always a prefix of header and payload. */
  lemma PlainBytesPrefix(header: seq<byte>, slices: seq<seq<byte>>)
    requires Packets(slices)
    requires slices != [] ==> FirstPacketFits(header, slices)
    ensures Flatten(PlainChunks(header, slices)) <= header + Flatten(slices)
  {
    if slices == [] {
      assert PlainChunks(header, slices) == [];
    } else {
      PlainBytes(header, slices);
      AppendAssoc(header, slices[0], Flatten(slices[1..]));
    }
  }

  /** A first slice that fills the relay's buffer always loses the size of the header from its end. */
  lemma FullFirstSliceIsCut(header: seq<byte>, first: seq<byte>)
    requires header != [] && |header| <= MAX_PACKET_SIZE && |first| == MAX_PACKET_SIZE
    ensures Flatten(PlainChunks(header, [first])) == header + first[..MAX_PACKET_SIZE - |header|]
    ensures Flatten(PlainChunks(header, [first])) != header + Flatten([first])
  {
    PlainBytes(header, [first]);
    PlainBytesComplete(header, [first]);
    assert Flatten([first][1..]) == [];
    assert Cut(header + first) == header + first[..MAX_PACKET_SIZE - |header|];
  }

  // ----- the stream -----

  datatype ConnectState = Connect(addr: Address) | Connecting(first: seq<byte>) | Connected

  class ProxyStream {
    const writer: EncryptedWriter
    const stream: WriteSocket
    var writeState: ConnectState
    ghost const target: Address
    /** The caller's slices that were turned into a chunk, the unfinished one included. */
    ghost var slices: seq<seq<byte>>

    ghost predicate Framed()
      reads this, writer, writer.cipher, writer.cipher.nonce, stream
    {
      && writer.Valid() && writer.InStep(stream)
      && Encodable(target)
      && writer.chunks == PlainChunks(Serialize(target), slices)
    }

    ghost predicate Valid()
      reads this, writer, writer.cipher, writer.cipher.nonce, stream
    {
      && Framed()
      && (writeState.Connect? ==> writeState.addr == target && slices == [])
      && (writeState.Connecting? ==> |slices| == 1 && writer.state.Writing?)
      && (writeState.Connected? ==> slices != [])
      && (writer.state.Writing? ==> slices != [])
    }

    /** A chunk was started and the socket has not taken all of it. */
    ghost predicate InFlight()
      reads this, writer
    {
      writer.state.Writing?
    }

    constructor (suite: Suite, key: seq<byte>, salt: seq<byte>, target: Address, stream: WriteSocket)
      requires 1 <= suite.nonceLen <= N_MAX && Encodable(target) && stream.sent == [] && stream.Account()
      ensures Valid() && !InFlight() && slices == []
      ensures fresh(writer) && fresh(writer.cipher) && fresh(writer.cipher.nonce)
      ensures this.stream == stream && this.target == target
      ensures writer.cipher.suite == suite && writer.key == key && writer.salt == salt
    {
      writer := new EncryptedWriter(suite, key, salt);
      this.stream := stream;
      this.target := target;
      writeState := Connect(target);
      slices := [];
      new;
      writer.InStepAtStart(stream);
      assert PlainChunks(Serialize(target), []) == [];
    }

    /** Address then payload, in one buffer. */
    static method MakeFirstPacketBuffer(addr: Address, buf: seq<byte>) returns (buffer: seq<byte>)
      requires Encodable(addr)
      ensures buffer == Serialize(addr) + buf
    {
      buffer := WriteToBuf(addr, []);
      assert [] + Serialize(addr) == Serialize(addr);
      buffer := buffer + buf;
    }

    /** Hands `chunk` to the writer; a new chunk stands for the caller's slice `data`. */
    method WriteChunk(chunk: seq<byte>, ghost data: seq<byte>) returns (r: Poll<IoResult<nat>>)
      requires Framed() && (writer.state.Writing? ==> slices != [])
      requires writer.state.AssemblePacket? ==> chunk == if slices == [] then Serialize(target) + data else data
      modifies this`slices, writer, writer.cipher, writer.cipher.nonce, stream
      ensures Framed() && slices != []
      ensures slices == if old(InFlight()) then old(slices) else old(slices) + [data]
      ensures r.Ready? && r.value.Ok? <==> !InFlight()
      ensures r.Ready? && r.value.Ok? ==> r.value.value == Min(|chunk|, MAX_PACKET_SIZE)
      ensures r.Ready? && r.value.Ok? ==>
                stream.sent == Stream(writer.cipher.suite, writer.key, writer.salt, writer.chunks)
      ensures stream.tally == Note(old(stream.tally), r) && stream.closed == old(stream.closed)
      ensures stream.flushes == old(stream.flushes)
      ensures r.Ready? && r.value.Err? ==>
                r.value.error == SocketError || (stream.closed && r.value.error == UnexpectedEof)
    {
      hide WriteSocket.Account;
      ghost var flying := InFlight();
      r := writer.PollWriteEncrypted(stream, chunk);
      if !flying {
        PlainChunksSnoc(Serialize(target), slices, data);
        slices := slices + [data];
      }
    }

    /**
     * Accepts `data` as the next chunk, or goes on with the chunk in flight. The first chunk carries
     * the address and is reported as wholly accepted even when it was cut.
     */
    method PollWrite(data: seq<byte>) returns (r: Poll<IoResult<nat>>)
      requires Valid()
      modifies this, writer, writer.cipher, writer.cipher.nonce, stream
      ensures Valid()
      ensures slices == if old(InFlight()) then old(slices) else old(slices) + [data]
      ensures r.Ready? && r.value.Ok? <==> !InFlight()
      ensures r.Ready? && r.value.Ok? ==>
                r.value.value == if old(writeState).Connected? then Min(|data|, MAX_PACKET_SIZE) else |data|
      ensures r.Ready? && r.value.Ok? ==>
                stream.sent == Stream(writer.cipher.suite, writer.key, writer.salt, writer.chunks)
      ensures stream.tally == Note(old(stream.tally), r) && stream.closed == old(stream.closed)
      ensures stream.flushes == old(stream.flushes)
      ensures r.Ready? && r.value.Err? ==>
                r.value.error == SocketError || (stream.closed && r.value.error == UnexpectedEof)
    {
      hide WriteSocket.Account;
      while true
        invariant Framed()
        invariant slices == old(slices) && InFlight() == old(InFlight()) && stream.sent == old(stream.sent)
        invariant stream.tally == old(stream.tally) && stream.closed == old(stream.closed)
        invariant stream.flushes == old(stream.flushes)
        invariant writeState == old(writeState) ||
                  (old(writeState).Connect? && writeState == Connecting(Serialize(target) + data))
        decreases writeState.Connect?
      {
        match writeState
        case Connect(addr) =>
          var buffer := MakeFirstPacketBuffer(addr, data);
          writeState := Connecting(buffer);

        case Connecting(buffer) =>
          var p := WriteChunk(buffer, data);
          if p.Pending? {
            return Pending;
          } else if p.value.Err? {
            return Ready(Err(p.value.error));
          }
          writeState := Connected;
          return Ready(Ok(|data|));

        case Connected =>
          r := WriteChunk(data, data);
          return;
      }
    }

    method PollFlush() returns (r: Poll<IoResult<()>>)
      requires Valid()
      modifies stream
      ensures Valid() && InFlight() == old(InFlight()) && slices == old(slices) && stream.sent == old(stream.sent)
      ensures stream.tally == Note(old(stream.tally), r) && stream.closed == old(stream.closed)
      ensures stream.flushes == old(stream.flushes) + (if r.Ready? && r.value.Ok? then 1 else 0)
      ensures r.Ready? && r.value.Err? ==> r.value.error == SocketError
    {
      r := stream.PollFlush();
    }
  }
}
