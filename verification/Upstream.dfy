/** One upstream server with its bounded latency history, and a list of servers to pick from. */
module Upstream {
  import opened Bytes
  import opened Hashing

  const MAX_HISTORY: nat := 10
  const U32_MAX: int := 0xFFFF_FFFF

  type u32 = x: int | 0 <= x <= U32_MAX

  // ----- histories -----

  /** The last ten of all values pushed. */
  function Recent(pushes: seq<u32>): (r: seq<u32>)
    ensures |r| <= MAX_HISTORY && (r == [] <==> pushes == [])
  {
    if |pushes| <= MAX_HISTORY then pushes else pushes[|pushes| - MAX_HISTORY..]
  }

  /** Pushing: a full history loses its front. */
  function PushTo(history: seq<u32>, value: u32): (r: seq<u32>) {
    (if |history| == MAX_HISTORY then history[1..] else history) + [value]
  }

  /** The history holds the ten latest values, or all of them while there are no more, in order. */
  lemma RecentIsLastTen(pushes: seq<u32>)
    ensures |Recent(pushes)| == (if |pushes| < 10 then |pushes| else 10)
    ensures forall i :: 0 <= i < |Recent(pushes)| ==> Recent(pushes)[i] == pushes[|pushes| - |Recent(pushes)| + i]
  {
  }

  // ----- the lowest of several values -----

  /** A value that makes its server eligible as the best one: not a failure, and not the largest number there is. */
  predicate Fit(v: int) {
    1 <= v <= 4294967294
  }

  /** `b` is the first index of the lowest fit value, or 0 if none is fit. */
  ghost predicate BestOf(values: seq<u32>, b: nat) {
    || (&& b < |values| && Fit(values[b])
        && (forall j :: 0 <= j < |values| && Fit(values[j]) ==> values[b] <= values[j])
        && (forall j :: 0 <= j < b && Fit(values[j]) ==> values[b] < values[j]))
    || (b == 0 && forall j :: 0 <= j < |values| ==> !Fit(values[j]))
  }

  /** One step of the scan that looks for it: `low` is the lowest fit value so far, or the largest number. */
  ghost predicate Scanned(values: seq<u32>, b: nat, low: u32) {
    && BestOf(values, b)
    && (if low < U32_MAX then b < |values| && values[b] == low && Fit(low)
        else forall j :: 0 <= j < |values| ==> !Fit(values[j]))
  }

  lemma NothingScanned()
    ensures Scanned([], 0, U32_MAX)
  {
  }

  lemma ScanIsBest(values: seq<u32>, b: nat, low: u32)
    requires Scanned(values, b, low)
    ensures BestOf(values, b)
  {
  }

  lemma ScanStep(values: seq<u32>, b: nat, low: u32, v: u32)
    requires Scanned(values, b, low)
    ensures if v != 0 && v < low then Scanned(values + [v], |values|, v) else Scanned(values + [v], b, low)
  {
    var all := values + [v];
    assert forall j :: 0 <= j < |values| ==> all[j] == values[j];
    assert all[|values|] == v;
  }

  lemma PushKeepsRecent(pushes: seq<u32>, value: u32)
    ensures PushTo(Recent(pushes), value) == Recent(pushes + [value])
  {
  }

  class Server {
    var history: seq<u32>
    ghost var pushes: seq<u32>

    ghost predicate Valid()
      reads this
    {
      history == Recent(pushes)
    }

    constructor ()
      ensures Valid() && pushes == []
    {
      history := [];
      pushes := [];
    }

    method PushLatency(value: u32)
      requires Valid()
      modifies this
      ensures Valid() && pushes == old(pushes) + [value]
      ensures history != [] && (Alive() <==> value > 0)
    {
      if |history| == MAX_HISTORY {
        history := history[1..];
      }
      history := history + [value];
      PushKeepsRecent(pushes, value);
      pushes := pushes + [value];
    }

    method ReportFailure()
      requires Valid()
      modifies this
      ensures Valid() && pushes == old(pushes) + [0]
      ensures history != [] && !Alive()
    {
      PushLatency(0);
    }

    /** The value pushed last. */
    ghost function LastPush(): (r: u32)
      requires pushes != []
      reads this
    {
      pushes[|pushes| - 1]
    }

    /** Reading an empty history panics. */
    function Latency(): (r: u32)
      requires Valid() && history != []
      reads this
      ensures pushes != [] && r == LastPush()
    {
      history[|history| - 1]
    }

    predicate Alive()
      requires Valid() && history != []
      reads this
      ensures pushes != [] && (Alive() <==> LastPush() > 0)
    {
      Latency() > 0
    }
  }

  // ----- choosing a server -----

  class Peers {
    const servers: seq<Server>
    var best: nat

    constructor (servers: seq<Server>)
      ensures this.servers == servers && best == 0
    {
      this.servers := servers;
      best := 0;
    }

    /** Every server was checked at least once. */
    ghost predicate Checked()
      reads servers
    {
      forall i :: 0 <= i < |servers| ==> servers[i].Valid() && servers[i].pushes != []
    }

    /** The value that server `i` got last is not a failure. */
    ghost predicate AliveAt(i: int)
      requires Checked()
      reads servers
    {
      0 <= i < |servers| && servers[i].LastPush() > 0
    }

    /** `i` is the first server alive, or the first server if none is. */
    ghost predicate FirstAlive(i: nat)
      requires Checked()
      reads servers
    {
      || (AliveAt(i) && forall j :: 0 <= j < i ==> !AliveAt(j))
      || (i == 0 && forall j :: 0 <= j < |servers| ==> !AliveAt(j))
    }

    method Fallback() returns (i: nat)
      requires Checked() && servers != []
      ensures i < |servers| && FirstAlive(i)
    {
      i := 0;
      while i < |servers|
        invariant i <= |servers|
        invariant forall j :: 0 <= j < i ==> !AliveAt(j)
      {
        if servers[i].Alive() {
          return i;
        }
        i := i + 1;
      }
      return 0;
    }

    /** The stored best server if it is alive, otherwise the first one alive. */
    method Best() returns (i: nat)
      requires Checked() && best < |servers|
      ensures i < |servers| && (if AliveAt(best) then i == best else FirstAlive(i))
      ensures AliveAt(i) || forall j :: !AliveAt(j)
    {
      if servers[best].Alive() {
        return best;
      }
      i := Fallback();
    }

    /** The bucket of the `t`-th try for a host key. */
    ghost function Try(scale: JumpScale, key: u64, t: nat): (i: int)
      requires Widens(scale) && 1 <= |servers| <= I32_MAX
    {
      Bucket(scale, (key + t) % TWO_64, |servers|)
    }

    /** The first of five hashed tries that is alive, otherwise the first server alive. */
    method ByEtld(scale: JumpScale, key0: u64) returns (i: nat)
      requires Checked() && Widens(scale) && 1 <= |servers| <= I32_MAX
      ensures i < |servers|
      ensures || (exists t :: 0 <= t < 5 && i == Try(scale, key0, t) && AliveAt(i)
                              && forall u :: 0 <= u < t ==> !AliveAt(Try(scale, key0, u)))
              || (FirstAlive(i) && forall u :: 0 <= u < 5 ==> !AliveAt(Try(scale, key0, u)))
      ensures AliveAt(i) || forall j :: !AliveAt(j)
    {
      hide Bucket, LastBelow, Target;
      var key := key0;
      for t := 0 to 5
        invariant key == (key0 + t) % TWO_64
        invariant forall u :: 0 <= u < t ==> !AliveAt(Try(scale, key0, u))
      {
        BucketInRange(scale, key, |servers|);
        var index := JumpHash(scale, key, |servers|);
        assert index == Try(scale, key0, t);
        if servers[index].Alive() {
          return index;
        }
        key := (key + 1) % TWO_64;
      }
      i := Fallback();
    }

    /** The scan that ends a check, over the values the servers got last: stores the index of the best one. */
    method StoreBest(ghost values: seq<u32>)
      requires Checked() && servers != [] && |values| == |servers|
      requires forall i :: 0 <= i < |servers| ==> servers[i].LastPush() == values[i]
      modifies this`best
      ensures Checked() && best < |servers| && BestOf(values, best)
    {
      hide BestOf, Scanned, Recent;
      var bestIndex, bestLatency := 0, U32_MAX;
      var index := 0;
      NothingScanned();
      while index < |servers|
        invariant 0 <= index <= |servers| && 0 <= bestIndex < |servers| && 0 <= bestLatency <= U32_MAX
        invariant Scanned(values[..index], bestIndex, bestLatency)
      {
        var latency := servers[index].Latency();
        ScanStep(values[..index], bestIndex, bestLatency, latency);
        TakeSnoc(values, index);
        if latency != 0 && latency < bestLatency {
          bestIndex := index;
          bestLatency := latency;
        }
        index := index + 1;
      }
      best := bestIndex;
      assert values[..|servers|] == values;
      ScanIsBest(values, bestIndex, bestLatency);
    }

    /** Every server was asked once: the order in which the answers come in holds each index once. */
    ghost predicate Arrival(arrival: seq<nat>) {
      && (forall k :: 0 <= k < |arrival| ==> arrival[k] < |servers|)
      && (forall k, l :: 0 <= k < l < |arrival| ==> arrival[k] != arrival[l])
      && (forall i :: 0 <= i < |servers| ==> i in arrival)
    }

    ghost predicate Distinct() {
      forall i, j :: 0 <= i < j < |servers| ==> servers[i] != servers[j]
    }

    /** The next answer comes from a server that has not answered yet. */
    lemma ArrivalStep(arrival: seq<nat>, k: nat)
      requires Arrival(arrival) && k < |arrival|
      ensures arrival[k] < |servers| && arrival[k] !in Elements(arrival[..k])
      ensures Elements(arrival[..k + 1]) == Elements(arrival[..k]) + {arrival[k]}
    {
      assert arrival[..k + 1] == arrival[..k] + [arrival[k]];
      ElementsSnoc(arrival[..k], arrival[k]);
    }

    lemma AllArrived(arrival: seq<nat>)
      requires Arrival(arrival)
      ensures forall i: nat :: i < |servers| ==> i in Elements(arrival[..|arrival|])
    {
      assert arrival[..|arrival|] == arrival;
    }

    /** Pushes the scores as they arrive; in the end every server has exactly its own one more. */
    method PushScores(scores: seq<u32>, arrival: seq<nat>)
      requires |scores| == |servers| && Arrival(arrival) && Distinct()
      requires forall i :: 0 <= i < |servers| ==> servers[i].Valid()
      modifies servers
      ensures forall i :: 0 <= i < |servers| ==>
                servers[i].Valid() && servers[i].pushes == old(servers[i].pushes) + [scores[i]]
    {
      hide Arrival, Elements, Server.Valid;
      NoElements(arrival[..0]);
      for k := 0 to |arrival|
        invariant forall i :: 0 <= i < |servers| ==> servers[i].Valid()
        invariant forall i :: 0 <= i < |servers| ==>
                    servers[i].pushes == if i in Elements(arrival[..k]) then old(servers[i].pushes) + [scores[i]]
                                         else old(servers[i].pushes)
      {
        ArrivalStep(arrival, k);
        var n := arrival[k];
        servers[n].PushLatency(scores[n]);
      }
      AllArrived(arrival);
    }

    /**
     * One check: every server gets its new score, in the order in which the scores arrive, then the best one is
     * stored. An empty list is left alone.
     */
    method CheckOnce(scores: seq<u32>, arrival: seq<nat>)
      requires |scores| == |servers| && Arrival(arrival) && Distinct()
      requires forall i :: 0 <= i < |servers| ==> servers[i].Valid()
      modifies this`best, servers
      ensures Checked()
      ensures forall i :: 0 <= i < |servers| ==>
                servers[i].Valid() && servers[i].pushes == old(servers[i].pushes) + [scores[i]]
      ensures servers == [] ==> best == old(best)
      ensures servers != [] ==> best < |servers|
      ensures servers != [] ==> BestOf(scores, best)
    {
      if servers == [] {
        return;
      }
      PushScores(scores, arrival);
      StoreBest(scores);
    }
  }
}
