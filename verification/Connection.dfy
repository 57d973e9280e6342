/** Both directions of one connection: the copy that ends first takes the other one with it. */
module Connection {
  import opened Bytes
  import opened CipherModel
  import opened Framing
  import opened Sockets
  import opened AddressCodec
  import opened Proxy
  import opened CopyModel
  import opened Reader
  import opened CopyBackModel
  import opened Relay

  /** How the connection ended: by the copy from the local side to the wire, by the way back, or not yet. */
  datatype Ending = Running | UpEnded(ok: bool) | DownEnded(back: Back)

  /** Where the way back stands when the connection has ended. */
  function BackOf(e: Ending): (b: Back) {
    if e.DownEnded? then e.back else Waiting
  }

  /** One round: a poll of the way up and, unless that ends, one of the way back. */
  method Round(up: CopyBuffer, localIn: ReadSocket, proxy: ProxyStream,
               down: CopyBack, reader: DecryptedReader, wireIn: ReadSocket, localOut: WriteSocket, ghost total: seq<byte>)
    returns (ending: Ending)
    requires up.Valid(localIn, proxy) && Settled(Waiting, down, reader, wireIn, localOut, total)
    requires UpObjects(up, localIn, proxy) !! DownObjects(down, reader, wireIn, localOut)
    requires !proxy.stream.closed && !localOut.closed && wireIn.Account() && localOut.Account()
    modifies UpObjects(up, localIn, proxy), DownObjects(down, reader, wireIn, localOut)
    ensures up.Valid(localIn, proxy) && !proxy.stream.closed && !localOut.closed
    ensures localIn.consumed + localIn.incoming == old(localIn.consumed + localIn.incoming)
    ensures proxy.stream.flushes == old(proxy.stream.flushes) + (if ending == UpEnded(true) then 1 else 0)
    ensures ending == UpEnded(true) ==>
              && localIn.incoming == [] && proxy.slices == up.expected && !proxy.InFlight()
              && |up.expected| < Moves(localIn.plan) && Lead(localIn.plan, |up.expected| + 1) <= localIn.tally.stalls
    ensures var t, u := old(up.Tallied(localIn, proxy)), up.Tallied(localIn, proxy);
            u == match ending
                 case UpEnded(ok) => if ok then t else t.(failures := t.failures + 1)
                 case _ => t.(stalls := t.stalls + 1)
    ensures Settled(BackOf(ending), down, reader, wireIn, localOut, total)
    ensures wireIn.Account() && localOut.Account() && (BackOf(ending).Ended? ==> wireIn.Touched())
    ensures reader.cipher == old(reader.cipher) || (fresh(reader.cipher) && fresh(reader.cipher.nonce))
    ensures !BackOf(ending).Ended? ==> localOut.flushes == old(localOut.flushes)
    ensures ending.UpEnded? ==> localOut.sent == old(localOut.sent)
    ensures ending.DownEnded? ==> !ending.back.Waiting?
    ensures var t, u := old(Sum(wireIn.tally, localOut.tally)), Sum(wireIn.tally, localOut.tally);
            && (ending.UpEnded? || BackOf(ending).Ended? ==> u == t)
            && (ending.Running? ==> u == t.(stalls := t.stalls + 1))
            && (BackOf(ending).Broken? ==> u == t.(failures := t.failures + 1))
  {
    hide Settled, CopyBack.Valid, CopyBuffer.Valid, WriteSocket.Account, ReadSocket.Account, ReadSocket.Touched;
    var r := up.PollCopy(localIn, proxy);
    assert Settled(Waiting, down, reader, wireIn, localOut, total);
    if r.Ready? {
      return UpEnded(r.value.Ok?);
    }
    NotYet(down, reader, wireIn, localOut, total);
    var back := PollBackOnce(down, reader, wireIn, localOut);
    return if back.Waiting? then Running else DownEnded(back);
  }

  /**
   * Rounds until one of the copies ends, at most `polls` of them; `rounds` counts those in which both stalled.
   */
  method Select(up: CopyBuffer, localIn: ReadSocket, proxy: ProxyStream,
                down: CopyBack, reader: DecryptedReader, wireIn: ReadSocket, localOut: WriteSocket, polls: nat)
    returns (ending: Ending, rounds: nat)
    requires up.Valid(localIn, proxy) && down.Valid(reader, wireIn, localOut)
    requires UpObjects(up, localIn, proxy) !! DownObjects(down, reader, wireIn, localOut)
    requires !proxy.stream.closed && !localOut.closed && wireIn.Account()
    modifies UpObjects(up, localIn, proxy), DownObjects(down, reader, wireIn, localOut)
    ensures up.Valid(localIn, proxy) && !proxy.stream.closed && !localOut.closed
    ensures localIn.consumed + localIn.incoming == old(localIn.consumed + localIn.incoming)
    ensures proxy.stream.flushes <= old(proxy.stream.flushes) + 1
    ensures ending == UpEnded(true) ==>
              && localIn.incoming == [] && proxy.slices == up.expected && !proxy.InFlight()
              && |up.expected| < Moves(localIn.plan) && Lead(localIn.plan, |up.expected| + 1) <= localIn.tally.stalls
    ensures rounds <= polls && (ending.Running? <==> rounds == polls)
    ensures var t, u := old(up.Tallied(localIn, proxy)), up.Tallied(localIn, proxy);
            && u.stalls == t.stalls + rounds + (if ending.DownEnded? then 1 else 0)
            && (ending == UpEnded(false) ==> t.failures < u.failures)
    ensures Settled(BackOf(ending), down, reader, wireIn, localOut, old(wireIn.consumed + wireIn.incoming))
    ensures wireIn.Account() && localOut.Account() && (BackOf(ending).Ended? ==> wireIn.Touched())
    ensures !BackOf(ending).Ended? ==> localOut.flushes == old(localOut.flushes)
    ensures rounds == 0 && ending.UpEnded? ==> localOut.sent == old(localOut.sent)
    ensures ending.DownEnded? ==> !ending.back.Waiting?
    ensures var t, u := old(Sum(wireIn.tally, localOut.tally)), Sum(wireIn.tally, localOut.tally);
            && u.stalls == t.stalls + rounds
            && (BackOf(ending).Broken? ==> t.failures < u.failures)
  {
    hide Settled, CopyBack.Valid, CopyBuffer.Valid, WriteSocket.Account, ReadSocket.Account, ReadSocket.Touched;
    ghost var total := wireIn.consumed + wireIn.incoming;
    ghost var ups := UpObjects(up, localIn, proxy);
    NotYet(down, reader, wireIn, localOut, total);
    ending, rounds := Running, 0;
    while rounds < polls
      invariant rounds <= polls && ending.Running?
      invariant up.Valid(localIn, proxy) && !proxy.stream.closed && !localOut.closed
      invariant localIn.consumed + localIn.incoming == old(localIn.consumed + localIn.incoming)
      invariant proxy.stream.flushes == old(proxy.stream.flushes) && localOut.flushes == old(localOut.flushes)
      invariant var t := old(up.Tallied(localIn, proxy));
                up.Tallied(localIn, proxy) == t.(stalls := t.stalls + rounds)
      invariant Settled(Waiting, down, reader, wireIn, localOut, total) && wireIn.Account() && localOut.Account()
      invariant var t := old(Sum(wireIn.tally, localOut.tally));
                Sum(wireIn.tally, localOut.tally) == t.(stalls := t.stalls + rounds)
      invariant reader.cipher == old(reader.cipher) || (fresh(reader.cipher) && fresh(reader.cipher.nonce))
      invariant rounds == 0 ==> localOut.sent == old(localOut.sent)
      invariant ups !! DownObjects(down, reader, wireIn, localOut)
    {
      ending := Round(up, localIn, proxy, down, reader, wireIn, localOut, total);
      if !ending.Running? {
        return;
      }
      rounds := rounds + 1;
    }
  }

  // ----- the outcome as a comparison of stalls -----

  /** A way up that flows meets no more stalls than its scripts hold. */
  lemma UpStalls(up: CopyBuffer, local: ReadSocket, proxy: ProxyStream, input: seq<byte>)
    requires up.Valid(local, proxy) && Correct(proxy.writer.cipher.suite) && local.consumed + local.incoming == input
    requires up.expected == Reads(local.plan, MAX_PACKET_SIZE, input)
    requires !proxy.stream.closed && proxy.stream.flushes <= 1
    ensures var w, u := proxy.writer, up.Tallied(local, proxy);
            var due := Due(w.cipher.suite, w.key, w.salt, proxy.target, up.expected);
            Flows(local.plan, proxy.stream.plan, |up.expected|, |due| + 1) ==>
              u.failures == 0 && u.stalls <= Stalls(local.plan) + Stalls(proxy.stream.plan)
  {
    hide Reads, Due, CopyBuffer.Valid;
    var u, most := up.Tallied(local, proxy), Stalls(local.plan) + Stalls(proxy.stream.plan);
    if u.failures > 0 || u.stalls > most {
      Unfinished(up, local, proxy, input, most + 1);
    }
  }

  lemma UpNeverFails(up: CopyBuffer, local: ReadSocket, proxy: ProxyStream)
    requires up.Valid(local, proxy) && Failures(local.plan) == Failures(proxy.stream.plan) == 0
    ensures up.Tallied(local, proxy).failures == 0
  {
    hide CopyBuffer.Valid;
    CopyAccounts(up, local, proxy);
  }

  /** A way back that flows and has not ended is not broken and met no more stalls than its scripts hold. */
  lemma BackStalls(back: Back, down: CopyBack, reader: DecryptedReader, wire: ReadSocket, local: WriteSocket, total: seq<byte>)
    requires Settled(back, down, reader, wire, local, total) && !back.Ended?
    requires local.Account() && !local.closed && local.flushes == 0
    ensures var u := Sum(wire.tally, local.tally);
            Flows(wire.plan, local.plan, |total| + 1, |Flatten(DecodeStream(reader.suite, reader.key, total).chunks)|) ==>
              u.failures == 0 && u.stalls <= Stalls(wire.plan) + Stalls(local.plan)
  {
    hide Settled, DecodeStream, Flatten, WriteSocket.Account;
    var u, most := Sum(wire.tally, local.tally), Stalls(wire.plan) + Stalls(local.plan);
    if u.failures > 0 || u.stalls > most {
      NotEnded(back, down, reader, wire, local, total, most + 1);
    }
  }

  /** A way back that ended, brought something or broke met the stalls in front of its first move. */
  lemma BackLead(back: Back, down: CopyBack, reader: DecryptedReader, wire: ReadSocket, local: WriteSocket, total: seq<byte>)
    requires Settled(back, down, reader, wire, local, total) && wire.Account() && (back.Ended? ==> wire.Touched())
    requires back.Broken? ==> Sum(wire.tally, local.tally).failures > 0
    ensures back.Ended? || local.sent != [] || (back.Broken? && Failures(wire.plan) == 0) ==>
              Lead(wire.plan, 1) <= Sum(wire.tally, local.tally).stalls
  {
    hide Settled, ReadSocket.Touched, Lead;
    if wire.Touched() {
      wire.TouchedMoves();
    } else {
      NothingBack(back, down, reader, wire, local, total);
    }
  }

  /**
   * The local side stays open for longer than `stalls` stalls: no move of its schedule reports the end of the
   * input, or more stalls than that are in front of the move that does.
   */
  predicate Outlasts(script: seq<Answer>, input: seq<byte>, stalls: nat) {
    var n := |Reads(script, MAX_PACKET_SIZE, input)|;
    Failures(script) == 0 && (Moves(script) <= n || stalls < Lead(script, n + 1))
  }

  /**
   * One connection with both directions, for every input, every byte string that arrives from the peer and every
   * schedule of the four socket halves. Each side holds a prefix of what it is due, and the side whose copy ended
   * the connection holds all of it. Who ends it is a matter of the stalls in each direction:
   *
   *  - The way up ends only after the stalls in front of the end of the input, the way back only after the
   *    stalls in front of its first byte.
   *  - If the local side outlasts all stalls of a way back that flows, the way back is completed.
   *  - If all stalls of a way up that flows are fewer than those in front of the first byte of the answer, or there
   *    are none, the input is sent and nothing of the answer is received, whatever the peer sends.
   */
  method Relayed(s: Suite, key: seq<byte>, salt: seq<byte>, target: Address, input: seq<byte>, arrived: seq<byte>,
                 localInScript: seq<Answer>, wireOutScript: seq<Answer>,
                 wireInScript: seq<Answer>, localOutScript: seq<Answer>, size: nat, polls: nat)
    returns (ending: Ending, rounds: nat, wire: seq<byte>, written: seq<byte>)
    requires Correct(s) && Encodable(target) && 0 < size
    ensures var slices, d := Reads(localInScript, MAX_PACKET_SIZE, input), DecodeStream(s, key, arrived);
            var due := Due(s, key, salt, target, slices);
            var stallsUp := Stalls(localInScript) + Stalls(wireOutScript);
            var stallsDown := Stalls(wireInScript) + Stalls(localOutScript);
            && wire <= due && written <= Flatten(d.chunks)
            && (ending == UpEnded(true) ==> wire == due && Flatten(slices) == input)
            && (BackOf(ending).Ended? ==> written == Flatten(d.chunks) && BackOf(ending).verdict == Report(d.end))
            && rounds <= polls && (ending.Running? <==> rounds == polls)
            && (ending == UpEnded(true) ==> Lead(localInScript, |slices| + 1) <= rounds)
            && (BackOf(ending).Ended? || written != [] ==> Lead(wireInScript, 1) <= rounds)
            && (Flows(wireInScript, localOutScript, |arrived| + 1, |Flatten(d.chunks)|) && stallsDown < polls
                && Outlasts(localInScript, input, stallsDown) && Failures(wireOutScript) == 0 ==>
                  BackOf(ending).Ended?)
            && (Flows(localInScript, wireOutScript, |slices|, |due| + 1) && stallsUp < polls
                && Failures(wireInScript) == 0 && (stallsUp == 0 || stallsUp < Lead(wireInScript, 1)) ==>
                  ending == UpEnded(true) && written == [])
  {
    hide Flatten, Reads, Correct, Flows, Lead, Moves, Stalls, Failures, DecodeStream, Report, Due, Settled;
    hide CopyBuffer.Valid, CopyBack.Valid, WriteSocket.Account, ReadSocket.Account, ReadSocket.Touched;
    var up, localIn, proxy := Upward(s, key, salt, target, input, localInScript, wireOutScript, false);
    var down, reader, wireIn, localOut := Downward(s, key, arrived, wireInScript, localOutScript, false, size);
    ending, rounds := Select(up, localIn, proxy, down, reader, wireIn, localOut, polls);
    wire, written := proxy.stream.sent, localOut.sent;
    var back := BackOf(ending);
    WireSoFar(up, localIn, proxy, input);
    UpStalls(up, localIn, proxy, input);
    WrittenSoFar(back, down, reader, wireIn, localOut, arrived);
    BackLead(back, down, reader, wireIn, localOut, arrived);
    if !back.Ended? {
      BackStalls(back, down, reader, wireIn, localOut, arrived);
    }
    if Failures(localInScript) == Failures(wireOutScript) == 0 {
      UpNeverFails(up, localIn, proxy);
    }
  }
}
