/** The ping-pong replay filter: two Bloom filters, of which one is being filled. */
module Replay {
  import opened Bytes

  type Buffer = seq<byte>

  /** Whether a filter that holds `items` reports something it does not hold: a parameter of the model. */
  type FalsePositive = (set<Buffer>, Buffer) -> bool

  /** A filter never misses what was set, and may report more. */
  predicate Check(fp: FalsePositive, items: set<Buffer>, buf: Buffer) {
    buf in items || fp(items, buf)
  }

  /** One more buffer at the end joins the window there and leaves the windows before it alone. */
  lemma WindowsSnoc(bufs: seq<Buffer>, buf: Buffer, from: nat, mid: nat)
    requires from <= mid <= |bufs|
    ensures var full := bufs + [buf];
            && Elements(full[mid..|full|]) == Elements(bufs[mid..|bufs|]) + {buf}
            && full[from..mid] == bufs[from..mid]
  {
    assert (bufs + [buf])[mid..|bufs| + 1] == bufs[mid..|bufs|] + [buf];
    ElementsSnoc(bufs[mid..|bufs|], buf);
  }

  class PingPongBloom {
    const fp: FalsePositive
    const itemCount: nat
    var blooms: seq<set<Buffer>>
    var bloomCount: seq<nat>
    var current: nat
    /** The buffers that were answered with false, in order. */
    ghost var accepted: seq<Buffer>

    /** The filter holds exactly the accepted buffers number `from` up to `to`. */
    ghost predicate Holds(items: set<Buffer>, from: int, to: int)
      reads this
    {
      0 <= from <= to <= |accepted| && items == Elements(accepted[from..to])
    }

    /**
     * The current filter holds the last buffers accepted and the other one those right before, and the
     * other one is full unless nothing was ever dropped.
     */
    ghost predicate Valid()
      reads this
    {
      && 0 < itemCount && |blooms| == |bloomCount| == 2 && current < 2
      && bloomCount[0] <= itemCount && bloomCount[1] <= itemCount
      && var other, n := 1 - current, |accepted|;
         var mid := n - bloomCount[current];
         && Holds(blooms[current], mid, n)
         && Holds(blooms[other], mid - bloomCount[other], mid)
         && (bloomCount[other] == itemCount || mid == bloomCount[other])
    }

    ghost predicate Reports(buf: Buffer)
      requires |blooms| == 2
      reads this
    {
      Check(fp, blooms[0], buf) || Check(fp, blooms[1], buf)
    }

    constructor (fp: FalsePositive)
      ensures Valid() && accepted == [] && itemCount == 5_000 && this.fp == fp
    {
      this.fp := fp;
      itemCount := 10_000 / 2;
      blooms := [{}, {}];
      bloomCount := [0, 0];
      current := 0;
      accepted := [];
    }

    method CheckAndSet(buf: Buffer) returns (seen: bool)
      requires Valid()
      modifies this
      ensures Valid() && bloomCount[0] <= itemCount && bloomCount[1] <= itemCount
      ensures seen <==> old(Reports(buf))
      ensures accepted == if seen then old(accepted) else old(accepted) + [buf]
    {
      for i := 0 to 2
        invariant forall j :: 0 <= j < i ==> !Check(fp, blooms[j], buf)
      {
        if Check(fp, blooms[i], buf) {
          return true;
        }
      }
      if bloomCount[current] >= itemCount {
        Switch();
      }
      Set(buf);
      return false;
    }

    /** The current filter is full: the other one is cleared and becomes the current one. */
    method Switch()
      requires Valid() && bloomCount[current] >= itemCount
      modifies this
      ensures Valid() && bloomCount[current] < itemCount && accepted == old(accepted)
    {
      hide Elements;
      current := (current + 1) % 2;
      bloomCount := bloomCount[current := 0];
      blooms := blooms[current := {}];
      NoElements(accepted[|accepted|..|accepted|]);
    }

    /** Puts an accepted buffer into the current filter. */
    method Set(buf: Buffer)
      requires Valid() && bloomCount[current] < itemCount
      modifies this
      ensures Valid() && accepted == old(accepted) + [buf]
    {
      hide Elements;
      ghost var mid := |accepted| - bloomCount[current];
      WindowsSnoc(accepted, buf, mid - bloomCount[1 - current], mid);
      blooms := blooms[current := blooms[current] + {buf}];
      bloomCount := bloomCount[current := bloomCount[current] + 1];
      accepted := accepted + [buf];
    }

    /** Each of the last `itemCount` accepted buffers is reported if it is offered again. */
    lemma WindowHeld(k: nat)
      requires Valid() && k < |accepted| && |accepted| - k <= itemCount
      ensures Reports(accepted[k])
    {
      var mid := |accepted| - bloomCount[current];
      if mid <= k {
        assert accepted[k] == accepted[mid..][k - mid];
      } else {
        var from := mid - bloomCount[1 - current];
        assert accepted[k] == accepted[from..mid][k - from];
      }
    }
  }

  /** What is reported beyond that is a false positive: at most two filters of buffers are remembered. */
  lemma OnlyWindow(filter: PingPongBloom, buf: Buffer)
    requires filter.Valid() && filter.Reports(buf)
    ensures || buf in filter.accepted[if |filter.accepted| <= 2 * filter.itemCount then 0
                                      else |filter.accepted| - 2 * filter.itemCount..]
            || filter.fp(filter.blooms[0], buf) || filter.fp(filter.blooms[1], buf)
  {
    var n, mid := |filter.accepted|, |filter.accepted| - filter.bloomCount[filter.current];
    var from := mid - filter.bloomCount[1 - filter.current];
    var start := if n <= 2 * filter.itemCount then 0 else n - 2 * filter.itemCount;
    if buf in filter.accepted[from..mid] {
      InTail(filter.accepted, from, mid, start, buf);
    } else if buf in filter.accepted[mid..n] {
      InTail(filter.accepted, mid, n, start, buf);
    }
  }

  lemma InTail(bufs: seq<Buffer>, from: nat, to: nat, start: nat, buf: Buffer)
    requires start <= from <= to <= |bufs| && buf in bufs[from..to]
    ensures buf in bufs[start..]
  {
    var k :| 0 <= k < to - from && bufs[from..to][k] == buf;
    assert bufs[start..][from + k - start] == buf;
  }

  // ----- whole runs -----

  /** How many of the answers were false. */
  function Fresh(answers: seq<bool>): (n: nat) {
    if answers == [] then 0
    else Fresh(answers[..|answers| - 1]) + (if answers[|answers| - 1] then 0 else 1)
  }

  lemma {:induction false} FreshAppend(a: seq<bool>, b: seq<bool>)
    ensures Fresh(a + b) == Fresh(a) + Fresh(b)
    decreases |b|
  {
    if b == [] {
      assert a + b == a;
    } else {
      assert (a + b)[..|a + b| - 1] == a + b[..|b| - 1];
      FreshAppend(a, b[..|b| - 1]);
    }
  }

  /** Splits the count at a fresh answer. */
  lemma FreshAround(answers: seq<bool>, i: nat)
    requires i < |answers| && !answers[i]
    ensures Fresh(answers) == Fresh(answers[..i]) + 1 + Fresh(answers[i + 1..])
  {
    assert answers == answers[..i] + ([answers[i]] + answers[i + 1..]);
    FreshAppend(answers[..i], [answers[i]] + answers[i + 1..]);
    FreshAppend([answers[i]], answers[i + 1..]);
    assert [answers[i]][..0] == [];
  }

  /** The fresh buffers of a run, each at the place its answer has among the fresh ones. */
  ghost predicate Records(accepted: seq<Buffer>, bufs: seq<Buffer>, answers: seq<bool>)
    requires |answers| <= |bufs|
  {
    && |accepted| == Fresh(answers)
    && forall i :: 0 <= i < |answers| && !answers[i] ==>
         Fresh(answers[..i]) < |accepted| && accepted[Fresh(answers[..i])] == bufs[i]
  }

  /** A replay of buffer `i` at position `j`, with too few fresh buffers in between to push it out. */
  predicate Replayed(bufs: seq<Buffer>, answers: seq<bool>, i: nat, j: nat, window: nat) {
    i < j < |answers| <= |bufs| && bufs[i] == bufs[j] && !answers[i] && Fresh(answers[i + 1..j]) < window
  }

  /** Every replay within the window was recognised. */
  ghost predicate NoneMissed(bufs: seq<Buffer>, answers: seq<bool>, window: nat) {
    forall i: nat, j: nat :: Replayed(bufs, answers, i, j, window) ==> answers[j]
  }

  /** A replay of the next buffer that the window still covers. */
  predicate Due(bufs: seq<Buffer>, answers: seq<bool>, i: nat, window: nat) {
    i < |answers| < |bufs| && !answers[i] && bufs[i] == bufs[|answers|] && Fresh(answers[i + 1..]) < window
  }

  /**
   * Over every sequence of calls: a buffer answered with false is answered with true when it is offered
   * again before `itemCount` other buffers were answered with false.
   */
  method Process(filter: PingPongBloom, bufs: seq<Buffer>) returns (answers: seq<bool>)
    requires filter.Valid() && filter.accepted == []
    modifies filter
    ensures filter.Valid() && |answers| == |bufs|
    ensures NoneMissed(bufs, answers, filter.itemCount)
  {
    hide Fresh, Due, NoneMissed, Records;
    answers := [];
    NothingYet(bufs, filter.itemCount);
    for k := 0 to |bufs|
      invariant filter.Valid() && |answers| == k
      invariant Records(filter.accepted, bufs, answers)
      invariant NoneMissed(bufs, answers, filter.itemCount)
    {
      forall i: nat | Due(bufs, answers, i, filter.itemCount) ensures filter.Reports(bufs[k]) {
        DueIsReported(filter, bufs, answers, i);
      }
      ghost var accepted := filter.accepted;
      var seen := filter.CheckAndSet(bufs[k]);
      RecordsSnoc(accepted, bufs, answers, seen);
      StillNoneMissed(bufs, answers, seen, filter.itemCount);
      answers := answers + [seen];
    }
  }

  lemma NothingYet(bufs: seq<Buffer>, window: nat)
    ensures Records([], bufs, []) && NoneMissed(bufs, [], window)
  {
  }

  lemma DueIsReported(filter: PingPongBloom, bufs: seq<Buffer>, answers: seq<bool>, i: nat)
    requires filter.Valid() && |answers| < |bufs| && Records(filter.accepted, bufs, answers)
    requires Due(bufs, answers, i, filter.itemCount)
    ensures filter.Reports(bufs[|answers|])
  {
    FreshAround(answers, i);
    filter.WindowHeld(Fresh(answers[..i]));
  }

  lemma RecordsSnoc(accepted: seq<Buffer>, bufs: seq<Buffer>, answers: seq<bool>, seen: bool)
    requires |answers| < |bufs| && Records(accepted, bufs, answers)
    ensures Records(if seen then accepted else accepted + [bufs[|answers|]], bufs, answers + [seen])
  {
    var all := answers + [seen];
    assert all[..|answers|] == answers;
    forall i | 0 <= i < |answers| ensures all[..i] == answers[..i] {
    }
  }

  /** One more answer adds only replays at the new position. */
  lemma StillNoneMissed(bufs: seq<Buffer>, answers: seq<bool>, seen: bool, window: nat)
    requires |answers| < |bufs| && NoneMissed(bufs, answers, window)
    requires forall i: nat :: Due(bufs, answers, i, window) ==> seen
    ensures NoneMissed(bufs, answers + [seen], window)
  {
    var all := answers + [seen];
    forall i: nat, j: nat | Replayed(bufs, all, i, j, window) ensures all[j] {
      if j < |answers| {
        assert all[i + 1..j] == answers[i + 1..j];
        assert Replayed(bufs, answers, i, j, window);
      } else {
        assert all[i + 1..j] == answers[i + 1..];
        assert Due(bufs, answers, i, window);
      }
    }
  }
}
