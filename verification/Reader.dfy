/** The decrypting half of a tunnel: an incremental reader that refines the one-shot decoder. */
module Reader {
  import opened Bytes
  import opened CipherModel
  import opened Framing
  import opened Sockets

  datatype ReadState = WaitSalt | ReadLength | ReadData(length: nat) | BufferedData(pos: nat)

  datatype ProtocolError = Io(io: IoError) | DecryptDataError | DecryptLengthError | DataTooLong(size: nat)

  datatype ReadResult<+T> = Done(value: T) | Failed(error: ProtocolError)

  /** The error that reports each way a byte string can end, or none for a clean end. */
  function Report(e: End): (r: Option<ProtocolError>) {
    match e
    case Clean => None
    case Truncated => Some(Io(UnexpectedEof))
    case BadLength => Some(DecryptLengthError)
    case BadData => Some(DecryptDataError)
    case TooLong(n) => Some(DataTooLong(n))
  }

  // ----- where the reader stands in the byte string -----

  /** `whole` is a run of whole chunks, the ones in `chunks`. */
  ghost predicate At(k: Session, whole: seq<byte>, chunks: seq<seq<byte>>) {
    DecodeFrames(k, 0, whole) == Decoded(chunks, Clean)
  }

  /** `field` is a sealed length that opens to `len`. */
  ghost predicate LengthField(k: Session, c: nat, field: seq<byte>, len: nat) {
    && |field| == LENGTH_LEN && len < 0x1_0000
    && OpenAt(k, c, field) == Some(Be16(len))
  }

  lemma AtStart(k: Session)
    ensures At(k, [], [])
  {
  }

  /** Bytes that hold no whole chunk leave the chunks as they are and decide the end. */
  lemma AtPartial(k: Session, whole: seq<byte>, chunks: seq<seq<byte>>, tail: seq<byte>, e: End)
    requires At(k, whole, chunks) && HeadOf(k, 2 * |chunks|, tail) == Stop(e)
    ensures DecodeFrames(k, 0, whole + tail) == Decoded(chunks, e)
  {
    hide HeadOf;
    DecodeResume(k, 0, whole, chunks, tail);
  }

  lemma NothingLeft(k: Session, c: nat)
    ensures DecodeFrames(k, c, []) == Decoded([], Clean)
  {
  }

  /** Bytes that are exactly one chunk extend the run. */
  lemma AtChunk(k: Session, whole: seq<byte>, chunks: seq<seq<byte>>, tail: seq<byte>, p: seq<byte>)
    requires At(k, whole, chunks) && HeadOf(k, 2 * |chunks|, tail) == Chunk(p, |tail|)
    ensures At(k, whole + tail, chunks + [p])
  {
    hide HeadOf;
    DecodeResume(k, 0, whole, chunks, tail);
    assert tail[|tail|..] == [];
    AtStart(k);
    NothingLeft(k, 2 * |chunks| + 2);
  }

  lemma HeadOfShort(k: Session, c: nat, b: seq<byte>)
    requires |b| < LENGTH_LEN
    ensures HeadOf(k, c, b) == Stop(if b == [] then Clean else Truncated)
  {
  }

  lemma HeadOfField(k: Session, c: nat, field: seq<byte>)
    requires Correct(k.suite) && |field| == LENGTH_LEN
    ensures OpenAt(k, c, field).None? ==> HeadOf(k, c, field) == Stop(BadLength)
    ensures OpenAt(k, c, field).Some? ==>
              var m := OpenAt(k, c, field).value;
              && |m| == 2 && LengthField(k, c, field, FromBe16(m))
              && (FromBe16(m) > MAX_PACKET_SIZE ==> HeadOf(k, c, field) == Stop(TooLong(FromBe16(m))))
  {
    assert field[..LENGTH_LEN] == field;
    if OpenAt(k, c, field).Some? {
      OpenedLength(k, c, field);
      Be16OfFromBe16(OpenAt(k, c, field).value);
    }
  }

  /** A length field followed by `data`: truncated, corrupt, or one whole chunk. */
  lemma HeadOfData(k: Session, c: nat, field: seq<byte>, len: nat, data: seq<byte>)
    requires Correct(k.suite) && LengthField(k, c, field, len) && len <= MAX_PACKET_SIZE
    requires |data| <= len + TAG_LEN
    ensures HeadOf(k, c, field + data) ==
              if |data| < len + TAG_LEN then Stop(Truncated)
              else match OpenAt(k, c + 1, data)
                case None => Stop(BadData)
                case Some(p) => Chunk(p, |field + data|)
    ensures |data| == len + TAG_LEN && OpenAt(k, c + 1, data).Some? ==> |OpenAt(k, c + 1, data).value| == len
  {
    var w := field + data;
    assert w[..LENGTH_LEN] == field;
    assert FromBe16(Be16(len)) == len;
    if |data| == len + TAG_LEN {
      assert w[LENGTH_LEN..|w|] == data;
      if OpenAt(k, c + 1, data).Some? {
        OpenedLength(k, c + 1, data);
      }
    }
  }

  lemma SplitWire(salt: seq<byte>, whole: seq<byte>, field: seq<byte>, raw: seq<byte>)
    ensures var w := salt + (whole + field) + raw;
            w[..|salt|] == salt && w[|salt|..] == whole + (field + raw)
  {
  }

  lemma MoveChunk(salt: seq<byte>, whole: seq<byte>, field: seq<byte>, data: seq<byte>)
    ensures salt + (whole + field) + data == salt + ((whole + (field + data)) + []) + []
  {
  }

  lemma HandedOver(delivered: seq<byte>, buffer: seq<byte>, pos: nat, n: nat)
    requires pos + n <= |buffer|
    ensures delivered + buffer[pos..] == (delivered + buffer[pos..][..n]) + buffer[pos + n..]
  {
    assert buffer[pos..] == buffer[pos..][..n] + buffer[pos + n..];
  }

  lemma MoveField(salt: seq<byte>, whole: seq<byte>, field: seq<byte>)
    ensures salt + (whole + field) + [] == salt + (whole + []) + field
  {
  }

  // ----- the reader -----

  /** Opens a sealed length; the two high bits of the length must be zero. */
  method DecryptLength(cipher: Cipher, m: seq<byte>) returns (r: ReadResult<nat>)
    requires cipher.Valid() && Correct(cipher.suite) && |m| == LENGTH_LEN
    modifies cipher, cipher.nonce
    ensures cipher.Valid() && cipher.used == old(cipher.used) + 1
    ensures var k := Session(cipher.suite, cipher.subkey);
            match r
            case Done(len) => len <= MAX_PACKET_SIZE && LengthField(k, old(cipher.used), m, len)
            case Failed(e) =>
              && (e.DecryptLengthError? || e.DataTooLong?)
              && HeadOf(k, old(cipher.used), m) == Stop(if e.DataTooLong? then TooLong(e.size) else BadLength)
  {
    hide HeadOf, Correct;
    HeadOfField(Session(cipher.suite, cipher.subkey), cipher.used, m);
    var p := cipher.Decrypt(m);
    if p.None? {
      return Failed(DecryptLengthError);
    }
    var plen := FromBe16(p.value);
    if plen > MAX_PACKET_SIZE {
      return Failed(DataTooLong(plen));
    }
    return Done(plen);
  }

  /** `Note` for the reader's own results. */
  function NoteRead<T>(t: Tally, r: Poll<ReadResult<T>>): (u: Tally) {
    match r
    case Pending => t.(stalls := t.stalls + 1)
    case Ready(Failed(Io(SocketError))) => t.(failures := t.failures + 1)
    case Ready(_) => t
  }

  /** What one arm of the read loop does: go round again, or return from the poll. */
  datatype Arm = Again | Return(result: Poll<ReadResult<()>>)

  /** The poll ended for another reason than its socket's stall or failure. */
  predicate Concluded(r: Poll<ReadResult<()>>) {
    r.Ready? && (r.value.Done? || Final(r))
  }

  function NoteArm(t: Tally, arm: Arm): (u: Tally) {
    if arm.Again? then t else NoteRead(t, arm.result)
  }

  /** Every error but a failure of the socket is final. */
  predicate Final(r: Poll<ReadResult<()>>) {
    r.Ready? && r.value.Failed? && r.value.error != Io(SocketError)
  }

  class DecryptedReader {
    const suite: Suite
    const key: seq<byte>
    var state: ReadState
    var cipher: Cipher?
    var buffer: seq<byte>
    var salt: Option<seq<byte>>
    var handshaked: bool
    /** The wire bytes of the chunks so far, the length field being processed, the chunks, the output. */
    ghost var whole: seq<byte>
    ghost var field: seq<byte>
    ghost var chunks: seq<seq<byte>>
    ghost var delivered: seq<byte>

    ghost function CipherObjects(): (r: set<object>)
      reads this
    {
      if cipher == null then {} else {cipher, cipher.nonce}
    }

    ghost function Key(): (k: Session)
      requires salt.Some?
      reads this
    {
      SessionOf(suite, key, salt.value)
    }

    /** Before the salt is complete nothing else exists. */
    ghost predicate Waiting()
      reads this
    {
      && cipher == null && salt == None && !handshaked
      && whole == [] && field == [] && chunks == [] && delivered == []
      && |buffer| <= suite.saltLen
    }

    ghost predicate Keyed()
      reads this, CipherObjects()
    {
      && salt.Some? && |salt.value| == suite.saltLen && handshaked
      && cipher != null && cipher.Valid() && cipher.suite == suite && cipher.subkey == Key().subkey
      && cipher.used == 2 * |chunks| + (if state.ReadData? then 1 else 0)
      && At(Key(), whole, chunks)
    }

    /** What each state holds after the salt. */
    ghost predicate Opening()
      requires salt.Some?
      reads this
    {
      match state
      case WaitSalt => false
      case ReadLength => field == [] && |buffer| < LENGTH_LEN && delivered == Flatten(chunks)
      case ReadData(len) =>
        && len <= MAX_PACKET_SIZE && LengthField(Key(), 2 * |chunks|, field, len)
        && |buffer| < len + TAG_LEN && delivered == Flatten(chunks)
      case BufferedData(pos) =>
        && field == [] && pos <= |buffer| && delivered + buffer[pos..] == Flatten(chunks)
    }

    ghost predicate Valid()
      reads this, CipherObjects()
    {
      && Correct(suite)
      && (if state.WaitSalt? then Waiting() && |buffer| < suite.saltLen else Keyed() && Opening())
    }

    /** The wire bytes that have left the buffer. */
    ghost function Before(): (w: seq<byte>)
      reads this
    {
      if salt.None? then [] else salt.value + (whole + field)
    }

    /** The wire bytes behind the current state, salt included. */
    ghost function Wire(): (w: seq<byte>)
      reads this
    {
      Before() + if state.BufferedData? then [] else buffer
    }

    ghost predicate InStep(stream: ReadSocket)
      reads this, stream
    {
      stream.Account() && Wire() == stream.consumed
    }

    /**
     * The reader is through with the stream: it reported `e` and delivered exactly what the one-shot
     * decoder finds in the bytes consumed, and it stopped early only for a fatal error.
     */
    ghost predicate Verdict(stream: ReadSocket, e: Option<ProtocolError>)
      reads this, stream
    {
      var d := DecodeStream(suite, key, stream.consumed);
      && Report(d.end) == e && delivered == Flatten(d.chunks)
      && (Fatal(d.end) || stream.incoming == [])
    }

    constructor (suite: Suite, key: seq<byte>)
      requires Correct(suite)
      ensures Valid() && state.WaitSalt? && delivered == [] && Wire() == []
      ensures this.suite == suite && this.key == key
    {
      this.suite := suite;
      this.key := key;
      state := WaitSalt;
      cipher := null;
      buffer := [];
      salt := None;
      handshaked := false;
      whole, field, chunks, delivered := [], [], [], [];
    }

    /**
     * Against the one-shot decoder: it finds the same chunks in the bytes consumed so far, and what was
     * delivered is a prefix of them; between chunks and inside one, every chunk was delivered.
     */
    lemma Refines()
      requires Valid()
      ensures DecodeStream(suite, key, Wire()).chunks == chunks
      ensures delivered <= Flatten(chunks)
      ensures !state.BufferedData? ==> delivered == Flatten(chunks)
      ensures DecodeStream(suite, key, Wire()).end ==
                if state.BufferedData? || (state.ReadLength? && buffer == []) then Clean else Truncated
    {
      hide HeadOf;
      if state.WaitSalt? {
      } else {
        var k := Key();
        var raw := if state.BufferedData? then [] else buffer;
        var tail := field + raw;
        SplitWire(salt.value, whole, field, raw);
        match state
        case ReadLength =>
          assert tail == buffer;
          HeadOfShort(k, 2 * |chunks|, buffer);
          AtPartial(k, whole, chunks, tail, if buffer == [] then Clean else Truncated);
        case ReadData(len) =>
          HeadOfData(k, 2 * |chunks|, field, len, buffer);
          AtPartial(k, whole, chunks, tail, Truncated);
        case BufferedData(_) =>
          assert whole + tail == whole;
      }
    }

    /** Fills the buffer up to `size` bytes; zero is returned for an end of stream before the first byte. */
    method PollReadExact(stream: ReadSocket, size: nat, ghost before: seq<byte>) returns (r: Poll<IoResult<nat>>)
      requires |buffer| < size && stream.consumed == before + buffer && stream.Account()
      modifies this`buffer, stream
      ensures stream.consumed == before + buffer && stream.Account()
      ensures old(stream.Touched()) || (r.Ready? && r != Ready(Err(SocketError))) ==> stream.Touched()
      ensures stream.empties == old(stream.empties) + (if r == Ready(Ok(0)) || r == Ready(Err(UnexpectedEof)) then 1 else 0)
      ensures stream.consumed + stream.incoming == old(stream.consumed + stream.incoming)
      ensures r.Ready? ==> |stream.script| < |old(stream.script)|
      ensures stream.tally == Note(old(stream.tally), r)
      ensures match r
              case Pending => |buffer| < size
              case Ready(Ok(n)) =>
                if n == 0 then buffer == [] && stream.incoming == [] else n == size == |buffer|
              case Ready(Err(e)) =>
                && |buffer| < size
                && (e.UnexpectedEof? ==> buffer != [] && stream.incoming == [])
                && (e.UnexpectedEof? || e.SocketError?)
    {
      hide ReadSocket.Account;
      while |buffer| < size
        invariant |buffer| <= size && stream.consumed == before + buffer
        invariant stream.Account() && stream.empties == old(stream.empties)
        invariant old(stream.Touched()) ==> stream.Touched()
        invariant stream.consumed + stream.incoming == old(stream.consumed + stream.incoming)
        invariant |buffer| < size || |stream.script| < |old(stream.script)|
        invariant |stream.script| <= |old(stream.script)| && stream.tally == old(stream.tally)
        decreases size - |buffer|
      {
        ghost var left := stream.incoming;
        var p, data := stream.PollRead(size - |buffer|);
        assert left == data + stream.incoming;
        AppendAssoc(before, buffer, data);
        if p.Pending? {
          return Pending;
        } else if p.value.Err? {
          return Ready(Err(p.value.error));
        }
        if |data| == 0 {
          if buffer != [] {
            return Ready(Err(UnexpectedEof));
          } else {
            return Ready(Ok(0));
          }
        }
        buffer := buffer + data;
      }
      return Ready(Ok(size));
    }

    /** The poll stopped without a verdict: it may go on later from the same place. */
    ghost predicate Suspended(stream: ReadSocket)
      reads this, stream, CipherObjects()
    {
      Valid() && InStep(stream)
    }

    /** The contract of one arm: another turn, a suspension, a clean end, or a final error. */
    ghost predicate Outcome(stream: ReadSocket, arm: Arm)
      reads this, stream, CipherObjects()
    {
      match arm
      case Again => Suspended(stream)
      case Return(Pending) => Suspended(stream)
      case Return(Ready(Done(_))) => Suspended(stream) && Verdict(stream, None)
      case Return(Ready(Failed(e))) =>
        if Final(arm.result) then Verdict(stream, Some(e)) else Suspended(stream)
    }

    /** A failed or pending read leaves the reader where it was; an end inside a chunk is reported. */
    method Interrupted(ghost stream: ReadSocket, p: Poll<IoResult<nat>>) returns (arm: Arm)
      requires Valid() && InStep(stream) && !state.BufferedData?
      requires p.Pending? || p.value.Err?
      requires p.Ready? ==> (p.value.error.SocketError? ||
                             (p.value.error.UnexpectedEof? && buffer != [] && stream.incoming == []))
      ensures arm == Return(if p.Pending? then Pending else Ready(Failed(Io(p.value.error)))) && Outcome(stream, arm)
    {
      hide ReadSocket.Account;
      if p.Pending? {
        arm := Return(Pending);
      } else {
        arm := Return(Ready(Failed(Io(p.value.error))));
        if p.value.error.UnexpectedEof? {
          Refines();
        }
      }
    }

    /** Keys the session from the complete salt. */
    method Handshake(ghost stream: ReadSocket)
      requires Correct(suite) && state.WaitSalt? && Waiting() && |buffer| == suite.saltLen
      requires stream.Account() && stream.consumed == buffer
      modifies this
      ensures Valid() && InStep(stream) && state.ReadLength? && delivered == old(delivered)
      ensures fresh(cipher) && fresh(cipher.nonce)
    {
      hide DecodeFrames, ReadSocket.Account;
      salt := Some(buffer);
      cipher := new Cipher(suite, key, buffer);
      buffer := [];
      state := ReadLength;
      handshaked := true;
      AtStart(Key());
    }

    /** The `WaitSalt` arm. */
    method TakeSalt(stream: ReadSocket) returns (arm: Arm)
      requires Valid() && InStep(stream) && state.WaitSalt?
      modifies this, stream
      ensures Outcome(stream, arm) && delivered == old(delivered)
      ensures stream.consumed + stream.incoming == old(stream.consumed + stream.incoming)
      ensures arm.Again? ==> |stream.script| < |old(stream.script)|
      ensures stream.tally == NoteArm(old(stream.tally), arm) && (arm.Return? ==> Buffered() == 0)
      ensures stream.empties == old(stream.empties) ||
              (stream.empties == old(stream.empties) + 1 && arm.Return? && Concluded(arm.result))
      ensures stream.Account() && (old(stream.Touched()) || (arm.Return? && Concluded(arm.result)) ==> stream.Touched())
      ensures cipher == old(cipher) || (fresh(cipher) && fresh(cipher.nonce))
    {
      hide HeadOf, DecodeFrames, DecodeStream, Flatten, Correct, NonceAt, ReadSocket.Account;
      var p := PollReadExact(stream, suite.saltLen, []);
      if p.Pending? || p.value.Err? {
        arm := Interrupted(stream, p);
        return;
      }
      if p.value.value < suite.saltLen {
        Refines();
        return Return(Ready(Failed(Io(UnexpectedEof))));
      }
      Handshake(stream);
      return Again;
    }

    /** Opens the length field that fills the buffer. */
    method OpenLength(ghost stream: ReadSocket) returns (arm: Arm)
      requires Correct(suite) && Keyed() && stream.consumed == Before() + buffer && stream.Account()
      requires state.ReadLength? && field == [] && |buffer| == LENGTH_LEN && delivered == Flatten(chunks)
      modifies this, CipherObjects()
      ensures Outcome(stream, arm) && delivered == old(delivered) && cipher == old(cipher)
      ensures arm.Again? || (Final(arm.result) && Buffered() == 0)
    {
      hide HeadOf, DecodeFrames, DecodeStream, Flatten, Correct, NonceAt, ReadSocket.Account;
      var r := DecryptLength(cipher, buffer);
      if r.Failed? {
        assert field + buffer == buffer;
        Stopped(stream, if r.error.DataTooLong? then TooLong(r.error.size) else BadLength);
        return Return(Ready(Failed(r.error)));
      }
      field := buffer;
      buffer := [];
      state := ReadData(r.value);
      MoveField(salt.value, whole, field);
      return Again;
    }

    /** The `ReadLength` arm; end of stream on a chunk boundary ends the tunnel cleanly. */
    method TakeLength(stream: ReadSocket) returns (arm: Arm)
      requires Valid() && InStep(stream) && state.ReadLength?
      modifies this, stream, CipherObjects()
      ensures Outcome(stream, arm) && delivered == old(delivered) && cipher == old(cipher)
      ensures stream.consumed + stream.incoming == old(stream.consumed + stream.incoming)
      ensures arm.Again? ==> |stream.script| < |old(stream.script)|
      ensures stream.tally == NoteArm(old(stream.tally), arm) && (arm.Return? ==> Buffered() == 0)
      ensures stream.empties == old(stream.empties) ||
              (stream.empties == old(stream.empties) + 1 && arm.Return? && Concluded(arm.result))
      ensures stream.Account() && (old(stream.Touched()) || (arm.Return? && Concluded(arm.result)) ==> stream.Touched())
    {
      hide HeadOf, DecodeFrames, DecodeStream, Flatten, Correct, NonceAt, ReadSocket.Account;
      var p := PollReadExact(stream, LENGTH_LEN, Before());
      if p.Pending? || p.value.Err? {
        arm := Interrupted(stream, p);
        return;
      }
      if p.value.value == 0 {
        Refines();
        return Return(Ready(Done(())));
      }
      arm := OpenLength(stream);
    }

    /** The bytes in the buffer make the decoder stop with `e`, for good. */
    lemma Stopped(stream: ReadSocket, e: End)
      requires salt.Some? && |salt.value| == suite.saltLen && At(Key(), whole, chunks)
      requires HeadOf(Key(), 2 * |chunks|, field + buffer) == Stop(e)
      requires stream.consumed == Before() + buffer && delivered == Flatten(chunks) && Fatal(e)
      ensures Verdict(stream, Report(e))
    {
      hide HeadOf;
      var tail := field + buffer;
      SplitWire(salt.value, whole, field, buffer);
      AtPartial(Key(), whole, chunks, tail, e);
    }

    /** Opens the chunk whose sealed data fills the buffer. */
    method OpenData(ghost stream: ReadSocket) returns (arm: Arm)
      requires Correct(suite) && Keyed() && stream.consumed == Before() + buffer && stream.Account()
      requires state.ReadData? && |buffer| == state.length + TAG_LEN && delivered == Flatten(chunks)
      requires state.length <= MAX_PACKET_SIZE && LengthField(Key(), 2 * |chunks|, field, state.length)
      modifies this, CipherObjects()
      ensures Outcome(stream, arm) && delivered == old(delivered) && cipher == old(cipher)
      ensures arm.Again? || (Final(arm.result) && Buffered() == 0)
    {
      hide HeadOf, DecodeFrames, DecodeStream, Flatten, Correct, NonceAt, ReadSocket.Account;
      HeadOfData(Key(), 2 * |chunks|, field, state.length, buffer);
      var m := cipher.Decrypt(buffer);
      if m.None? {
        Stopped(stream, BadData);
        return Return(Ready(Failed(DecryptDataError)));
      }
      AtChunk(Key(), whole, chunks, field + buffer, m.value);
      FlattenSnoc(chunks, m.value);
      MoveChunk(salt.value, whole, field, buffer);
      whole := whole + (field + buffer);
      field := [];
      chunks := chunks + [m.value];
      buffer := m.value;
      state := BufferedData(0);
      assert buffer[0..] == buffer;
      return Again;
    }

    /** The `ReadData` arm: opens one whole chunk. */
    method TakeData(stream: ReadSocket) returns (arm: Arm)
      requires Valid() && InStep(stream) && state.ReadData?
      modifies this, stream, CipherObjects()
      ensures Outcome(stream, arm) && delivered == old(delivered) && cipher == old(cipher)
      ensures stream.consumed + stream.incoming == old(stream.consumed + stream.incoming)
      ensures arm.Again? ==> |stream.script| < |old(stream.script)|
      ensures stream.tally == NoteArm(old(stream.tally), arm) && (arm.Return? ==> Buffered() == 0)
      ensures stream.empties == old(stream.empties) ||
              (stream.empties == old(stream.empties) + 1 && arm.Return? && Concluded(arm.result))
      ensures stream.Account() && (old(stream.Touched()) || (arm.Return? && Concluded(arm.result)) ==> stream.Touched())
    {
      hide HeadOf, DecodeFrames, DecodeStream, Flatten, Correct, NonceAt, ReadSocket.Account;
      var size := state.length;
      var p := PollReadExact(stream, size + TAG_LEN, Before());
      if p.Pending? || p.value.Err? {
        arm := Interrupted(stream, p);
        return;
      }
      if p.value.value == 0 {
        Refines();
        return Return(Ready(Failed(Io(UnexpectedEof))));
      }
      arm := OpenData(stream);
    }

    /** The `BufferedData` arm: hands over what is left of the chunk, or goes on to the next one. */
    method HandOver(room: nat, ghost stream: ReadSocket) returns (arm: Arm, out: seq<byte>)
      requires Valid() && InStep(stream) && state.BufferedData?
      modifies this
      ensures Valid() && InStep(stream) && cipher == old(cipher)
      ensures delivered == old(delivered) + out && |out| <= room
      ensures arm == Again ==> state.ReadLength? && out == []
      ensures arm != Again ==> arm.result.Ready? && arm.result.value.Done? && (out == [] ==> room == 0)
      ensures arm != Again ==> Buffered() == old(Buffered()) - |out| && (|out| == room || Buffered() == 0)
    {
      hide DecodeFrames, Flatten, Correct, ReadSocket.Account;
      var pos := state.pos;
      if pos < |buffer| {
        var buffered := buffer[pos..];
        var consumed := Min(|buffered|, room);
        out := buffered[..consumed];
        HandedOver(delivered, buffer, pos, consumed);
        state := BufferedData(pos + consumed);
        delivered := delivered + out;
        return Return(Ready(Done(()))), out;
      }
      buffer := [];
      state := ReadLength;
      return Again, [];
    }

    /** Before the first byte of the stream nothing can have been delivered. */
    lemma Untouched(stream: ReadSocket)
      requires Valid() && InStep(stream) && !stream.Touched()
      ensures delivered == []
    {
      hide DecodeFrames, Flatten, ReadSocket.Account;
      assert |Wire()| == 0;
    }

    /** Opened bytes that wait to be handed over. */
    ghost function Buffered(): (n: nat)
      reads this
    {
      if state.BufferedData? && state.pos <= |buffer| then |buffer| - state.pos else 0
    }

    /** One turn of the read loop: whichever arm the state calls for. */
    method Turn(stream: ReadSocket, room: nat) returns (arm: Arm, out: seq<byte>)
      requires Valid() && InStep(stream)
      modifies this, stream, CipherObjects()
      ensures if arm.Return? && Final(arm.result) then Verdict(stream, Some(arm.result.value.error)) else Suspended(stream)
      ensures arm.Return? && arm.result.Ready? && arm.result.value.Done? && out == [] && room > 0 ==> Verdict(stream, None)
      ensures delivered == old(delivered) + out && |out| <= room
      ensures stream.tally == NoteArm(old(stream.tally), arm)
      ensures arm.Again? || arm.result.Pending? || arm.result.value.Failed? ==> out == []
      ensures arm.Return? && arm.result.Ready? && arm.result.value.Done? ==> |out| == room || Buffered() == 0
      ensures stream.consumed + stream.incoming == old(stream.consumed + stream.incoming)
      ensures cipher == old(cipher) || (fresh(cipher) && fresh(cipher.nonce))
      ensures out != [] ==> stream.script == old(stream.script) && old(state).BufferedData? && Buffered() < old(Buffered())
      ensures arm.Again? ==> |stream.script| < |old(stream.script)| ||
                             (stream.script == old(stream.script) && old(state).BufferedData? && state.ReadLength?)
      ensures stream.empties == old(stream.empties) ||
              (stream.empties == old(stream.empties) + 1 && arm.Return? && Concluded(arm.result) && out == [])
      ensures stream.Account()
      ensures old(stream.Touched()) || (arm.Return? && Concluded(arm.result) && out == [] && room > 0) ==> stream.Touched()
    {
      assert stream.Account();
      hide DecryptedReader.Valid, DecryptedReader.InStep, DecryptedReader.Verdict, ReadSocket.Account, ReadSocket.Touched;
      out := [];
      match state {
        case WaitSalt => arm := TakeSalt(stream);
        case ReadLength => arm := TakeLength(stream);
        case ReadData(_) => arm := TakeData(stream);
        case BufferedData(_) => arm, out := HandOver(room, stream);
      }
    }

    /**
     * One poll for at most `room` bytes. Every poll delivers the next bytes of the decoded stream, an
     * empty delivery into a non-empty space is the clean end, and every error but a socket failure is
     * the decoder's own verdict on the bytes consumed. It is pending exactly when the socket stalled, and
     * opened bytes are held back only for lack of space.
     */
    method PollReadDecrypted(stream: ReadSocket, room: nat) returns (r: Poll<ReadResult<()>>, out: seq<byte>)
      requires Valid() && InStep(stream)
      modifies this, stream, CipherObjects()
      ensures if Final(r) then Verdict(stream, Some(r.value.error)) else Suspended(stream)
      ensures r.Ready? && r.value.Done? && out == [] && room > 0 ==> Verdict(stream, None)
      ensures delivered == old(delivered) + out && |out| <= room
      ensures stream.tally == NoteRead(old(stream.tally), r)
      ensures r.Ready? && r.value.Done? ==> |out| == room || Buffered() == 0
      ensures r.Pending? || r.value.Failed? ==> out == []
      ensures stream.consumed + stream.incoming == old(stream.consumed + stream.incoming)
      ensures cipher == old(cipher) || (fresh(cipher) && fresh(cipher.nonce))
      ensures out != [] ==> |stream.script| < |old(stream.script)| ||
                            (stream.script == old(stream.script) && Buffered() < old(Buffered()))
      ensures stream.empties == old(stream.empties) ||
              (stream.empties == old(stream.empties) + 1 && Concluded(r) && out == [])
      ensures stream.Account()
      ensures old(stream.Touched()) || (Concluded(r) && out == [] && room > 0) ==> stream.Touched()
    {
      assert stream.Account();
      hide DecryptedReader.Valid, DecryptedReader.InStep, DecryptedReader.Verdict, DecryptedReader.Buffered;
      hide ReadSocket.Account, ReadSocket.Touched;
      out := [];
      while true
        invariant Valid() && InStep(stream) && out == [] && delivered == old(delivered)
        invariant stream.tally == old(stream.tally) && stream.empties == old(stream.empties)
        invariant stream.Account() && (old(stream.Touched()) ==> stream.Touched())
        invariant stream.consumed + stream.incoming == old(stream.consumed + stream.incoming)
        invariant cipher == old(cipher) || (fresh(cipher) && fresh(cipher.nonce))
        invariant |stream.script| < |old(stream.script)| ||
                  (stream.script == old(stream.script) && (state.BufferedData? ==> Buffered() == old(Buffered())))
        decreases |stream.script|, state.BufferedData?
      {
        var arm;
        arm, out := Turn(stream, room);
        if arm.Return? {
          return arm.result, out;
        }
      }
    }
  }

  // ----- whole runs -----

  lemma StreamMonotone(s: Suite, key: seq<byte>, w: seq<byte>, r: seq<byte>)
    ensures DecodeStream(s, key, w).chunks <= DecodeStream(s, key, w + r).chunks
    ensures Fatal(DecodeStream(s, key, w).end) ==> DecodeStream(s, key, w + r) == DecodeStream(s, key, w)
  {
    if s.saltLen <= |w| {
      TakeAppend(w, r, s.saltLen);
      DropAppend(w, r, s.saltLen);
      DecodeMonotone(SessionOf(s, key, w[..s.saltLen]), 0, w[s.saltLen..], r);
    }
  }

  /**
   * Any number of polls, with any amount of space each, against any schedule of the socket: what comes
   * out is a prefix of what the one-shot decoder finds in the whole stream, and once the reader ends,
   * all of it, with the decoder's verdict. Neither depends on how the stream was split. Polls with space that
   * do not bring the end bring a byte, a stall or a failure.
   */
  method ReadAll(reader: DecryptedReader, stream: ReadSocket, rooms: seq<nat>)
    returns (out: seq<byte>, over: bool, verdict: Option<ProtocolError>)
    requires reader.Valid() && reader.InStep(stream) && reader.delivered == []
    modifies reader, stream, reader.CipherObjects()
    ensures var d := DecodeStream(reader.suite, reader.key, old(stream.consumed + stream.incoming));
            && out <= Flatten(d.chunks)
            && (over ==> out == Flatten(d.chunks) && verdict == Report(d.end))
    ensures !over && (forall i :: 0 <= i < |rooms| ==> 0 < rooms[i]) ==>
              && stream.Account() && stream.empties == old(stream.empties)
              && |stream.consumed| <= |old(stream.consumed + stream.incoming)|
              && old(stream.tally.stalls + stream.tally.failures) + |rooms|
                 <= stream.tally.stalls + stream.tally.failures + |out|
  {
    hide DecodeStream, Flatten, Correct, Report, ReadSocket.Account, ReadSocket.Touched;
    hide DecryptedReader.Valid, DecryptedReader.Verdict;
    out, over, verdict := [], false, None;
    ghost var total := stream.consumed + stream.incoming;
    for i := 0 to |rooms|
      invariant reader.Valid() && reader.InStep(stream) && reader.delivered == out
      invariant (forall k :: 0 <= k < i ==> 0 < rooms[k]) ==>
                  && stream.empties == old(stream.empties)
                  && old(stream.tally.stalls + stream.tally.failures) + i
                     <= stream.tally.stalls + stream.tally.failures + |out|
      invariant stream.consumed + stream.incoming == total
      invariant reader.cipher == old(reader.cipher) || (fresh(reader.cipher) && fresh(reader.cipher.nonce))
    {
      var r, data := reader.PollReadDecrypted(stream, rooms[i]);
      out := out + data;
      if Final(r) {
        VerdictOfTotal(reader, stream, Some(r.value.error));
        return out, true, Some(r.value.error);
      }
      if r.Ready? && r.value.Done? && data == [] && rooms[i] > 0 {
        VerdictOfTotal(reader, stream, None);
        return out, true, None;
      }
    }
    reader.Refines();
    StreamMonotone(reader.suite, reader.key, stream.consumed, stream.incoming);
    FlattenPrefix(reader.chunks, DecodeStream(reader.suite, reader.key, total).chunks);
  }

  /** A verdict on the consumed bytes is a verdict on the whole stream. */
  lemma VerdictOfTotal(reader: DecryptedReader, stream: ReadSocket, e: Option<ProtocolError>)
    requires reader.Verdict(stream, e)
    ensures var d := DecodeStream(reader.suite, reader.key, stream.consumed + stream.incoming);
            reader.delivered == Flatten(d.chunks) && Report(d.end) == e
  {
    StreamMonotone(reader.suite, reader.key, stream.consumed, stream.incoming);
    if stream.incoming == [] {
      assert stream.consumed + stream.incoming == stream.consumed;
    }
  }
}
