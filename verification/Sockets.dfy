/**
 * Non-blocking sockets. Each poll is answered from a script, so a theorem about every script is a
 * theorem about every schedule of stalls, failures, short writes and short reads.
 */
module Sockets {
  import opened Bytes

  /** `Move(n)`: the socket is ready and moves up to `n + 1` bytes. */
  datatype Answer = Stall | Fail | Move(extra: nat)

  /** How many of `len` bytes the next answer of `script` moves. */
  function Moved(script: seq<Answer>, len: nat): (r: Poll<IoResult<nat>>)
    ensures r.Ready? && r.value.Ok? ==> r.value.value <= len
    ensures r.Ready? && r.value.Ok? ==> (r.value.value == 0 <==> len == 0)
    ensures r.Ready? && r.value.Err? ==> r.value.error == SocketError
  {
    if script == [] then Pending
    else match script[0]
      case Stall => Pending
      case Fail => Ready(Err(SocketError))
      case Move(extra) => Ready(Ok(Min(extra + 1, len)))
  }

  function Rest(script: seq<Answer>): (r: seq<Answer>)
    ensures script != [] ==> |r| < |script|
  {
    if script == [] then [] else script[1..]
  }

  // ----- what a script holds -----

  function Stalls(script: seq<Answer>): (n: nat) {
    if script == [] then 0 else (if script[0].Stall? then 1 else 0) + Stalls(script[1..])
  }

  function Failures(script: seq<Answer>): (n: nat) {
    if script == [] then 0 else (if script[0].Fail? then 1 else 0) + Failures(script[1..])
  }

  function Moves(script: seq<Answer>): (n: nat) {
    if script == [] then 0 else (if script[0].Move? then 1 else 0) + Moves(script[1..])
  }

  /** The stalls in front of move number `k`, or all of them if the script has fewer moves. */
  function Lead(script: seq<Answer>, k: nat): (n: nat) {
    if script == [] || k == 0 then 0
    else if script[0].Move? then Lead(script[1..], k - 1)
    else (if script[0].Stall? then 1 else 0) + Lead(script[1..], k)
  }

  /** A script of which `k` moves are gone has lost the stalls in front of them too. */
  lemma {:induction false} LeadGone(plan: seq<Answer>, script: seq<Answer>, k: nat)
    requires |script| <= |plan| && script == plan[|plan| - |script|..]
    requires k + Moves(script) <= Moves(plan)
    ensures Lead(plan, k) + Stalls(script) <= Stalls(plan)
    decreases |plan|
  {
    if |plan| > |script| {
      assert script == plan[1..][|plan| - 1 - |script|..];
      MovesGone(plan[1..], script);
      if plan[0].Move? && k > 0 {
        LeadGone(plan[1..], script, k - 1);
      } else if plan[0].Move? {
        LeadGone(plan[1..], script, 0);
      } else {
        LeadGone(plan[1..], script, k);
      }
    }
  }

  lemma {:induction false} MovesGone(plan: seq<Answer>, script: seq<Answer>)
    requires |script| <= |plan| && script == plan[|plan| - |script|..]
    ensures Moves(script) <= Moves(plan)
    decreases |plan|
  {
    if |plan| > |script| {
      assert script == plan[1..][|plan| - 1 - |script|..];
      MovesGone(plan[1..], script);
    }
  }

  /** How many of `len` bytes the first successful read with room for `room` bytes brings. */
  function FirstRead(script: seq<Answer>, room: nat, len: nat): (n: nat)
    ensures n <= room && n <= len
  {
    if script == [] then 0
    else if script[0].Move? then Min(script[0].extra + 1, Min(room, len))
    else FirstRead(script[1..], room, len)
  }

  /** The slices that reads of up to `room` bytes each make of `input` under a script. */
  function Reads(script: seq<Answer>, room: nat, input: seq<byte>): (r: seq<seq<byte>>) {
    if script == [] || input == [] || room == 0 then []
    else if script[0].Move? then
      var n := Min(script[0].extra + 1, Min(room, |input|));
      [input[..n]] + Reads(script[1..], room, input[n..])
    else Reads(script[1..], room, input)
  }

  /** They follow each other from the front of the input; the first one has the size of the first read. */
  lemma {:induction false} ReadsOfInput(script: seq<Answer>, room: nat, input: seq<byte>)
    ensures var r := Reads(script, room, input);
            && Flatten(r) <= input && |r| <= |input|
            && (forall i :: 0 <= i < |r| ==> |r[i]| <= room)
            && (if r == [] then FirstRead(script, room, |input|) == 0
                else r[0] == input[..FirstRead(script, room, |input|)] != [])
    decreases |script|
  {
    if script != [] && input != [] && room != 0 {
      if script[0].Move? {
        var n := Min(script[0].extra + 1, Min(room, |input|));
        ReadsOfInput(script[1..], room, input[n..]);
        assert input == input[..n] + input[n..];
      } else {
        ReadsOfInput(script[1..], room, input);
      }
    }
  }

  /** The bytes a ready and successful answer moved. */
  function Count(r: Poll<IoResult<nat>>): (n: nat) {
    if r.Ready? && r.value.Ok? then r.value.value else 0
  }

  /** One poll against the slices and the moves of a script. */
  lemma ReadsStep(script: seq<Answer>, room: nat, input: seq<byte>)
    requires room > 0
    ensures var r := Moved(script, Min(room, |input|));
            && Reads(script, room, input)
               == (if Count(r) == 0 then [] else [input[..Count(r)]]) + Reads(Rest(script), room, input[Count(r)..])
            && Moves(script) == Moves(Rest(script)) + (if r.Ready? && r.value.Ok? then 1 else 0)
  {
    assert input[0..] == input;
  }

  /** How often a socket was not ready, and how often it failed. A stalled socket wakes its user up later. */
  datatype Tally = Tally(stalls: nat, failures: nat)

  /** The tally after one more answer, or after a call that passed the answer of one socket on. */
  function Note<T>(t: Tally, r: Poll<IoResult<T>>): (u: Tally) {
    match r
    case Pending => t.(stalls := t.stalls + 1)
    case Ready(Err(SocketError)) => t.(failures := t.failures + 1)
    case Ready(_) => t
  }

  function Sum(a: Tally, b: Tally): (r: Tally) {
    Tally(a.stalls + b.stalls, a.failures + b.failures)
  }

  /** The answers of `plan` that are gone from `script` are in the tally; stalls beyond them need an empty script. */
  ghost predicate Accounts(plan: seq<Answer>, script: seq<Answer>, tally: Tally) {
    && |script| <= |plan| && script == plan[|plan| - |script|..]
    && Stalls(plan) <= tally.stalls + Stalls(script)
    && (script != [] ==> tally.stalls + Stalls(script) == Stalls(plan))
    && tally.failures + Failures(script) == Failures(plan)
  }

  /** One more answer keeps the accounts. */
  lemma AccountsStep(plan: seq<Answer>, script: seq<Answer>, tally: Tally, len: nat)
    requires Accounts(plan, script, tally)
    ensures var r := Moved(script, len);
            && Accounts(plan, Rest(script), Note(tally, r))
            && (r.Ready? ==> Note(tally, r).stalls + Stalls(Rest(script)) == Stalls(plan))
  {
  }

  lemma MovesStep(script: seq<Answer>, len: nat)
    ensures var r := Moved(script, len);
            Moves(script) == Moves(Rest(script)) + (if r.Ready? && r.value.Ok? then 1 else 0)
  {
  }

  /** The sending half of a TCP stream: `sent` is what the peer will receive. */
  class WriteSocket {
    var script: seq<Answer>
    var sent: seq<byte>
    /** True if the peer refuses bytes: a ready write of zero bytes. */
    var closed: bool
    var tally: Tally
    /** The script at the start, and how many flushes succeeded. */
    ghost const plan: seq<Answer>
    ghost var flushes: nat

    /** Every move took a byte or was a flush, unless the peer refuses bytes: then none was ever taken. */
    ghost predicate Account()
      reads this
    {
      && Accounts(plan, script, tally)
      && (if closed then sent == [] else Moves(plan) <= Moves(script) + |sent| + flushes)
    }

    lemma Refused()
      requires Account()
      ensures closed ==> sent == []
    {
    }

    constructor (script: seq<Answer>, closed: bool)
      ensures sent == [] && this.closed == closed && this.script == script == plan
      ensures Account() && tally == Tally(0, 0) && flushes == 0
    {
      this.script := script;
      tally := Tally(0, 0);
      sent := [];
      this.closed := closed;
      plan := script;
      flushes := 0;
    }

    method PollWrite(buf: seq<byte>) returns (r: Poll<IoResult<nat>>)
      modifies this
      ensures r == Moved(old(script), if old(closed) then 0 else |buf|)
      ensures Count(r) <= |buf| && sent == old(sent) + buf[..Count(r)]
      ensures script == Rest(old(script)) && closed == old(closed) && tally == Note(old(tally), r)
      ensures flushes == old(flushes) && (old(Account()) && buf != [] ==> Account())
    {
      hide Moved, Accounts, Moves, Rest;
      ghost var len := if closed then 0 else |buf|;
      MovesStep(script, len);
      if Accounts(plan, script, tally) {
        AccountsStep(plan, script, tally, len);
      }
      r := Moved(script, if closed then 0 else |buf|);
      tally := Note(tally, r);
      script := Rest(script);
      sent := sent + buf[..Count(r)];
    }

    method PollFlush() returns (r: Poll<IoResult<()>>)
      modifies this
      ensures sent == old(sent) && closed == old(closed) && script == Rest(old(script)) && tally == Note(old(tally), r)
      ensures r.Ready? && r.value.Err? ==> r.value.error == SocketError
      ensures r.Ready? && r.value.Ok? <==> old(script) != [] && old(script)[0].Move?
      ensures flushes == old(flushes) + (if r.Ready? && r.value.Ok? then 1 else 0)
      ensures old(Account()) ==> Account()
    {
      hide Accounts, Moves;
      MovesStep(script, 0);
      if Accounts(plan, script, tally) {
        AccountsStep(plan, script, tally, 0);
      }
      var m := Moved(script, 0);
      script := Rest(script);
      r := match m case Pending => Pending case Ready(Err(e)) => Ready(Err(e)) case Ready(Ok(_)) => Ready(Ok(()));
      tally := Note(tally, r);
      flushes := flushes + if r.Ready? && r.value.Ok? then 1 else 0;
    }
  }

  /** The receiving half: `incoming` is what will still arrive before the peer closes. */
  class ReadSocket {
    var script: seq<Answer>
    var incoming: seq<byte>
    /** Everything handed to the reader so far. */
    var consumed: seq<byte>
    var tally: Tally
    /** The script at the start, and how many moves brought nothing. */
    ghost const plan: seq<Answer>
    ghost var empties: nat

    /** Every move brought a byte or is counted as empty. */
    ghost predicate Account()
      reads this
    {
      && Accounts(plan, script, tally)
      && Moves(plan) <= Moves(script) + |consumed| + empties
      && Moves(script) + (if Touched() then 1 else 0) <= Moves(plan)
    }

    /** A read has succeeded, if only in finding the end. */
    ghost predicate Touched()
      reads this
    {
      consumed != [] || empties > 0
    }

    /** The stalls in front of the moves that were made have been met. */
    lemma LeadMet(k: nat)
      requires Account() && k + Moves(script) <= Moves(plan)
      ensures Lead(plan, k) <= tally.stalls
    {
      LeadGone(plan, script, k);
    }

    lemma TouchedMoves()
      requires Account() && Touched()
      ensures Lead(plan, 1) <= tally.stalls
    {
      LeadMet(1);
    }

    lemma RunDry()
      requires Account()
      ensures script == [] ==> Moves(plan) <= |consumed| + empties
    {
    }

    /** Every stall so far came from the script. */
    ghost predicate NeverDry()
      reads this
    {
      tally.stalls + Stalls(script) == Stalls(plan)
    }

    constructor (script: seq<Answer>, incoming: seq<byte>)
      ensures this.script == script == plan && this.incoming == incoming && consumed == []
      ensures Account() && tally == Tally(0, 0) && empties == 0
    {
      plan := script;
      empties := 0;
      tally := Tally(0, 0);
      this.script := script;
      this.incoming := incoming;
      consumed := [];
    }

    /** Reads up to `room` bytes; zero bytes mean end of stream (or no room). */
    method PollRead(room: nat) returns (r: Poll<IoResult<nat>>, data: seq<byte>)
      modifies this
      ensures r == Moved(old(script), Min(room, |old(incoming)|))
      ensures |data| == Count(r) && data == old(incoming)[..Count(r)]
      ensures incoming == old(incoming)[Count(r)..] && consumed == old(consumed) + data
      ensures script == Rest(old(script)) && tally == Note(old(tally), r)
      ensures empties == old(empties) + (if r == Ready(Ok(0)) then 1 else 0) && (old(Account()) ==> Account())
      ensures old(Account()) && r.Ready? ==> NeverDry()
    {
      hide Moved, Accounts, Moves, Stalls, Rest;
      ghost var len := Min(room, |incoming|);
      MovesStep(script, len);
      if Accounts(plan, script, tally) {
        AccountsStep(plan, script, tally, len);
      }
      r := Moved(script, Min(room, |incoming|));
      tally := Note(tally, r);
      script := Rest(script);
      data := incoming[..Count(r)];
      incoming := incoming[Count(r)..];
      consumed := consumed + data;
      empties := empties + if r == Ready(Ok(0)) then 1 else 0;
    }

    /** `PollRead` into the front of a fixed buffer. */
    method PollReadInto(dst: array<byte>) returns (r: Poll<IoResult<nat>>)
      modifies this, dst
      ensures r == Moved(old(script), Min(dst.Length, |old(incoming)|))
      ensures Count(r) <= dst.Length && Count(r) <= |old(incoming)|
      ensures dst[..Count(r)] == old(incoming)[..Count(r)] && dst[Count(r)..] == old(dst[Count(r)..])
      ensures incoming == old(incoming)[Count(r)..] && consumed == old(consumed) + dst[..Count(r)]
      ensures script == Rest(old(script)) && tally == Note(old(tally), r)
      ensures empties == old(empties) + (if r == Ready(Ok(0)) then 1 else 0) && (old(Account()) ==> Account())
      ensures old(Account()) && r.Ready? ==> NeverDry()
    {
      var data;
      r, data := PollRead(dst.Length);
      forall i | 0 <= i < |data| {
        dst[i] := data[i];
      }
      assert dst[..Count(r)] == data;
    }
  }
}
