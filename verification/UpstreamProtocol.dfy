/**
 * The server list as a state machine: loading, checking, reloading, reporting and
 * picking interleave at the level of single history accesses.
 */
module UpstreamProtocol {
  import opened Bytes
  import opened Hashing
  import opened Upstream

  /** A server: its history, and everything ever pushed to it. */
  datatype Record = Record(history: seq<u32>, pushes: seq<u32>)

  /** A server list with its stored best index. */
  datatype Group = Group(members: seq<nat>, best: nat)

  /** How far a check of a group is: scores still arriving, a scan that has read `seen`, or through with them. */
  datatype Check = Pushing(done: set<nat>) | Scanning(index: nat, latency: u32, seen: seq<u32>) | Through(seen: seq<u32>)

  /**
   * `published` is the list behind the lock, with the periodic check that holds the lock for reading;
   * `staged` is a freshly loaded list that nobody else sees yet. `panicked` records a read of an empty
   * history or an index out of range, `empty` that an empty list was published.
   */
  datatype State = State(
    servers: map<nat, Record>,
    published: Option<Group>,
    check: Check,
    staged: Option<Group>,
    stagedCheck: Check,
    panicked: bool,
    empty: bool)

  /** Which server a pick looks at: the stored best, a hashed one, one of the fallback loop, the first. */
  datatype Access = AtBest | AtHash(key: u64) | AtLoop(i: nat) | AtFirst

  datatype Step =
    | Load(members: seq<nat>)
    | StagedCheck(i: nat, score: u32)
    | Publish
    | StartCheck
    | PeriodicCheck(i: nat, score: u32)
    | ReportFailure(id: nat)
    | Pick(access: Access)

  // ----- what each step does -----

  function PushOn(servers: map<nat, Record>, id: nat, value: u32): (r: map<nat, Record>)
    requires id in servers
  {
    var s := servers[id];
    servers[id := Record(PushTo(s.history, value), s.pushes + [value])]
  }

  predicate Known(servers: map<nat, Record>, g: Group) {
    forall i :: 0 <= i < |g.members| ==> g.members[i] in servers
  }

  /** One action of a check on group `g`; `i` and `score` matter while scores arrive. */
  datatype Checking = Checking(servers: map<nat, Record>, group: Group, check: Check, panicked: bool)

  predicate MayCheck(servers: map<nat, Record>, g: Group, c: Check, i: nat) {
    && Known(servers, g)
    && (c.Pushing? ==> g.members != [] && i < |g.members| && (i !in c.done || Complete(g, c.done)))
    && !c.Through?
  }

  predicate Complete(g: Group, done: set<nat>) {
    forall i :: 0 <= i < |g.members| ==> i in done
  }

  function DoCheck(servers: map<nat, Record>, g: Group, c: Check, i: nat, score: u32): (r: Checking)
    requires MayCheck(servers, g, c, i)
  {
    match c
    case Pushing(done) =>
      if Complete(g, done) then Checking(servers, g, Scanning(0, U32_MAX, []), false)
      else Checking(PushOn(servers, g.members[i], score), g, Pushing(done + {i}), false)
    case Scanning(index, latency, seen) =>
      if |seen| >= |g.members| then Checking(servers, g.(best := index), Through(seen), false)
      else
        var h := servers[g.members[|seen|]].history;
        if h == [] then Checking(servers, g, c, true)
        else
          var l := h[|h| - 1];
          if l != 0 && l < latency then Checking(servers, g, Scanning(|seen|, l, seen + [l]), false)
          else Checking(servers, g, Scanning(index, latency, seen + [l]), false)
  }

  /** How a new list starts: an empty one is not checked at all. */
  function InitialCheck(members: seq<nat>): (c: Check) {
    if members == [] then Through([]) else Pushing({})
  }

  ghost predicate PickPanics(scale: JumpScale, s: State, a: Access)
    requires Widens(scale) && s.published.Some?
  {
    var g := s.published.value;
    var n := |g.members|;
    var i: int := match a
      case AtBest => g.best
      case AtHash(key) => if n <= I32_MAX then Bucket(scale, key, n) else 0
      case AtLoop(i) => i
      case AtFirst => 0;
    || !(0 <= i < n)
    || (!a.AtFirst? && (g.members[i] !in s.servers || s.servers[g.members[i]].history == []))
  }

  /** The guards: when a step can happen. */
  ghost predicate Enabled(s: State, step: Step) {
    match step
    case Load(members) =>
      && s.staged.None? && |members| <= I32_MAX
      && (forall i :: 0 <= i < |members| ==> members[i] !in s.servers)
      && (forall i, j :: 0 <= i < j < |members| ==> members[i] != members[j])
    case StagedCheck(i, _) => s.staged.Some? && MayCheck(s.servers, s.staged.value, s.stagedCheck, i)
    case Publish => s.staged.Some? && s.stagedCheck.Through? && s.check.Through?
    case StartCheck => s.published.Some? && s.check.Through?
    case PeriodicCheck(i, _) => s.published.Some? && MayCheck(s.servers, s.published.value, s.check, i)
    case ReportFailure(id) => id in s.servers
    case Pick(a) => s.published.Some? && (a.AtLoop? ==> a.i < |s.published.value.members|)
  }

  ghost function Apply(scale: JumpScale, s: State, step: Step): (t: State)
    requires Widens(scale) && Enabled(s, step)
  {
    match step
    case Load(members) =>
      s.(servers := s.servers + (map id | id in members :: Record([], [])),
         staged := Some(Group(members, 0)), stagedCheck := InitialCheck(members))
    case StagedCheck(i, score) =>
      var c := DoCheck(s.servers, s.staged.value, s.stagedCheck, i, score);
      s.(servers := c.servers, staged := Some(c.group), stagedCheck := c.check, panicked := s.panicked || c.panicked)
    case Publish =>
      s.(published := s.staged, check := s.stagedCheck, staged := None, empty := s.empty || s.staged.value.members == [])
    case StartCheck =>
      s.(check := InitialCheck(s.published.value.members))
    case PeriodicCheck(i, score) =>
      var c := DoCheck(s.servers, s.published.value, s.check, i, score);
      s.(servers := c.servers, published := Some(c.group), check := c.check, panicked := s.panicked || c.panicked)
    case ReportFailure(id) =>
      s.(servers := PushOn(s.servers, id, 0))
    case Pick(a) =>
      s.(panicked := s.panicked || PickPanics(scale, s, a))
  }

  const START: State := State(map[], None, Through([]), None, Through([]), false, false)

  // ----- the invariant -----

  ghost predicate Bounded(servers: map<nat, Record>) {
    forall id :: id in servers ==> servers[id].history == Recent(servers[id].pushes)
  }

  predicate Heard(servers: map<nat, Record>, id: nat) {
    id in servers && servers[id].pushes != []
  }

  ghost predicate AllHeard(servers: map<nat, Record>, g: Group) {
    forall i :: 0 <= i < |g.members| ==> Heard(servers, g.members[i])
  }

  /** A group under check: those that are done have a history; the scan runs only when all have one. */
  ghost predicate Checkable(servers: map<nat, Record>, g: Group, c: Check) {
    && Known(servers, g)
    && (g.members != [] ==> g.best < |g.members|)
    && match c
       case Pushing(done) => forall i :: i in done && i < |g.members| ==> Heard(servers, g.members[i])
       case Scanning(index, latency, seen) =>
         AllHeard(servers, g) && index < |g.members| && |seen| <= |g.members| && Scanned(seen, index, latency)
       case Through(seen) =>
         AllHeard(servers, g) && |seen| == |g.members| && BestOf(seen, g.best)
  }

  ghost predicate Inv(s: State) {
    && Bounded(s.servers)
    && (s.staged.Some? ==> Checkable(s.servers, s.staged.value, s.stagedCheck))
    && (s.published.Some? ==> Checkable(s.servers, s.published.value, s.check)
                              && AllHeard(s.servers, s.published.value)
                              && |s.published.value.members| <= I32_MAX
                              && (s.published.value.members == [] ==> s.empty))
    && (s.staged.Some? ==> |s.staged.value.members| <= I32_MAX)
    && (s.panicked ==> s.empty)
  }

  /** Histories only grow. */
  ghost predicate Grows(a: map<nat, Record>, b: map<nat, Record>) {
    forall id :: id in a ==> id in b && a[id].pushes <= b[id].pushes
  }

  lemma PushGrows(servers: map<nat, Record>, id: nat, value: u32)
    requires Bounded(servers) && id in servers
    ensures Bounded(PushOn(servers, id, value)) && Grows(servers, PushOn(servers, id, value))
    ensures Heard(PushOn(servers, id, value), id)
  {
    PushKeepsRecent(servers[id].pushes, value);
  }

  lemma GrowsKeeps(a: map<nat, Record>, b: map<nat, Record>, g: Group, c: Check)
    requires Grows(a, b) && Checkable(a, g, c)
    ensures Checkable(b, g, c) && (AllHeard(a, g) ==> AllHeard(b, g))
  {
    forall i | 0 <= i < |g.members| && Heard(a, g.members[i]) ensures Heard(b, g.members[i]) {
      assert a[g.members[i]].pushes <= b[g.members[i]].pushes;
    }
  }

  /** One action of a check keeps its group in order, lets histories only grow, and never panics. */
  lemma CheckKeeps(servers: map<nat, Record>, g: Group, c: Check, i: nat, score: u32)
    requires Bounded(servers) && Checkable(servers, g, c) && MayCheck(servers, g, c, i)
    ensures var r := DoCheck(servers, g, c, i, score);
            && !r.panicked && r.group.members == g.members
            && Bounded(r.servers) && Grows(servers, r.servers) && Checkable(r.servers, r.group, r.check)
            && (AllHeard(servers, g) ==> AllHeard(r.servers, r.group))
            && (r.group.best == g.best
                || (r.check.Through? && |r.check.seen| == |g.members| && BestOf(r.check.seen, r.group.best)))
  {
    hide BestOf, Scanned, Recent;
    match c
    case Pushing(done) =>
      if !Complete(g, done) {
        PushGrows(servers, g.members[i], score);
        GrowsKeeps(servers, PushOn(servers, g.members[i], score), g, c);
      } else {
        NothingScanned();
      }
    case Scanning(index, latency, seen) =>
      if |seen| < |g.members| {
        var record := servers[g.members[|seen|]];
        assert Heard(servers, g.members[|seen|]);
        LastOfRecord(servers, g.members[|seen|]);
        ScanStep(seen, index, latency, record.history[|record.history| - 1]);
      } else {
        ScanIsBest(seen, index, latency);
      }
  }

  lemma LastOfRecord(servers: map<nat, Record>, id: nat)
    requires Bounded(servers) && Heard(servers, id)
    ensures var r := servers[id];
            r.history != [] && r.history[|r.history| - 1] == r.pushes[|r.pushes| - 1]
  {
  }

  /** What a scan reads next is the value that server got last. */
  lemma ScanReads(servers: map<nat, Record>, g: Group, c: Check, i: nat, score: u32)
    requires Bounded(servers) && Checkable(servers, g, c) && MayCheck(servers, g, c, i)
    requires c.Scanning? && |c.seen| < |g.members|
    ensures var p, r := servers[g.members[|c.seen|]].pushes, DoCheck(servers, g, c, i, score);
            p != [] && r.check.Scanning? && r.check.seen == c.seen + [p[|p| - 1]] && r.servers == servers
  {
    hide BestOf, Scanned, Recent;
    assert Heard(servers, g.members[|c.seen|]);
    LastOfRecord(servers, g.members[|c.seen|]);
  }

  /** What a step pushes to server `id`: a zero for a failure, the score while a check collects them. */
  ghost function Pushed(s: State, step: Step, id: nat): (r: seq<u32>)
    requires Enabled(s, step)
  {
    match step
    case ReportFailure(x) => if x == id then [0] else []
    case StagedCheck(i, score) => PushedByCheck(s.staged.value, s.stagedCheck, i, score, id)
    case PeriodicCheck(i, score) => PushedByCheck(s.published.value, s.check, i, score, id)
    case _ => []
  }

  ghost function PushedByCheck(g: Group, c: Check, i: nat, score: u32, id: nat): (r: seq<u32>)
    requires c.Pushing? ==> i < |g.members|
  {
    if c.Pushing? && (exists k :: 0 <= k < |g.members| && k !in c.done) && g.members[i] == id then [score] else []
  }

  /** Every step pushes exactly that to every server known before, and publishing takes the checked list over. */
  lemma StepEffects(scale: JumpScale, s: State, step: Step, id: nat)
    requires Widens(scale) && Inv(s) && Enabled(s, step) && id in s.servers
    ensures var t := Apply(scale, s, step);
            && id in t.servers && t.servers[id].pushes == s.servers[id].pushes + Pushed(s, step, id)
            && (step.Publish? ==> t.published == s.staged && t.staged.None? && t.servers == s.servers)
            && (step.Load? ==> t.staged == Some(Group(step.members, 0)) && t.published == s.published)
  {
    hide PickPanics, Recent, BestOf, Scanned;
    match step
    case StagedCheck(i, score) =>
      EffectOfCheck(s.servers, s.staged.value, s.stagedCheck, i, score, id);
    case PeriodicCheck(i, score) =>
      EffectOfCheck(s.servers, s.published.value, s.check, i, score, id);
    case ReportFailure(_) =>
      PushedValue(s.servers, step.id, 0, id);
    case _ =>
      assert s.servers[id].pushes + [] == s.servers[id].pushes;
  }

  lemma EffectOfCheck(servers: map<nat, Record>, g: Group, c: Check, i: nat, score: u32, id: nat)
    requires MayCheck(servers, g, c, i) && id in servers
    ensures var t := DoCheck(servers, g, c, i, score).servers;
            id in t && t[id].pushes == servers[id].pushes + PushedByCheck(g, c, i, score, id)
  {
    assert servers[id].pushes + [] == servers[id].pushes;
    if c.Pushing? && !Complete(g, c.done) {
      PushedValue(servers, g.members[i], score, id);
    }
  }

  lemma PushedValue(servers: map<nat, Record>, to: nat, value: u32, id: nat)
    requires to in servers && id in servers
    ensures var t := PushOn(servers, to, value);
            id in t && t[id].pushes == servers[id].pushes + (if to == id then [value] else [])
  {
    assert servers[id].pushes + [] == servers[id].pushes;
  }

  lemma LoadKeeps(scale: JumpScale, s: State, members: seq<nat>)
    requires Widens(scale) && Inv(s) && Enabled(s, Load(members))
    ensures Inv(Apply(scale, s, Load(members)))
  {
    var t := Apply(scale, s, Load(members));
    assert Grows(s.servers, t.servers);
    if s.published.Some? {
      GrowsKeeps(s.servers, t.servers, s.published.value, s.check);
    }
  }

  lemma OthersKeep(s: State, servers: map<nat, Record>)
    requires Inv(s) && Grows(s.servers, servers) && Bounded(servers)
    ensures Inv(s.(servers := servers))
  {
    if s.published.Some? {
      GrowsKeeps(s.servers, servers, s.published.value, s.check);
    }
    if s.staged.Some? {
      GrowsKeeps(s.servers, servers, s.staged.value, s.stagedCheck);
    }
  }

  lemma PickIsSafe(scale: JumpScale, s: State, a: Access)
    requires Widens(scale) && Inv(s) && Enabled(s, Pick(a))
    ensures PickPanics(scale, s, a) ==> s.published.value.members == []
  {
    var g := s.published.value;
    if g.members != [] {
      if a.AtHash? {
        BucketInRange(scale, a.key, |g.members|);
      }
      assert forall i :: 0 <= i < |g.members| ==> Heard(s.servers, g.members[i]);
    }
  }

  /** Every step keeps the invariant, whatever else is under way. */
  lemma StepKeeps(scale: JumpScale, s: State, step: Step)
    requires Widens(scale) && Inv(s) && Enabled(s, step)
    ensures Inv(Apply(scale, s, step))
  {
    hide DoCheck, PickPanics;
    match step
    case Load(members) =>
      LoadKeeps(scale, s, members);
    case StagedCheck(i, score) =>
      CheckKeeps(s.servers, s.staged.value, s.stagedCheck, i, score);
      OthersKeep(s, DoCheck(s.servers, s.staged.value, s.stagedCheck, i, score).servers);
    case Publish =>
    case StartCheck =>
    case PeriodicCheck(i, score) =>
      CheckKeeps(s.servers, s.published.value, s.check, i, score);
      OthersKeep(s, DoCheck(s.servers, s.published.value, s.check, i, score).servers);
    case ReportFailure(id) =>
      PushGrows(s.servers, id, 0);
      OthersKeep(s, PushOn(s.servers, id, 0));
    case Pick(a) =>
      PickIsSafe(scale, s, a);
  }

  // ----- runs -----

  /** `states` is a run that takes `steps` from the start, in any interleaving the guards allow. */
  ghost predicate Run(scale: JumpScale, states: seq<State>, steps: seq<Step>)
    requires Widens(scale)
  {
    && |states| == |steps| + 1 && states[0] == START
    && forall k :: 0 <= k < |steps| ==> Enabled(states[k], steps[k]) && states[k + 1] == Apply(scale, states[k], steps[k])
  }

  /** No load in the run brings an empty list. */
  predicate NonEmptyLoads(steps: seq<Step>) {
    forall k :: 0 <= k < |steps| && steps[k].Load? ==> steps[k].members != []
  }

  ghost predicate NoneEmpty(s: State) {
    !s.empty && (s.staged.Some? ==> s.staged.value.members != [])
  }

  lemma NoneEmptyKeeps(scale: JumpScale, s: State, step: Step)
    requires Widens(scale) && Inv(s) && Enabled(s, step) && NoneEmpty(s)
    requires step.Load? ==> step.members != []
    ensures NoneEmpty(Apply(scale, s, step))
  {
    hide DoCheck, PickPanics;
    if step.StagedCheck? {
      CheckKeeps(s.servers, s.staged.value, s.stagedCheck, step.i, step.score);
    }
  }

  lemma {:induction false} RunKeeps(scale: JumpScale, states: seq<State>, steps: seq<Step>, k: nat)
    requires Widens(scale) && Run(scale, states, steps) && k < |states|
    ensures Inv(states[k])
    ensures NonEmptyLoads(steps) ==> NoneEmpty(states[k])
    decreases k
  {
    hide Apply, Enabled, Inv, NoneEmpty;
    if k == 0 {
      StartIsSafe();
    } else {
      RunKeeps(scale, states, steps, k - 1);
      var s, step := states[k - 1], steps[k - 1];
      assert Enabled(s, step) && states[k - 1 + 1] == Apply(scale, s, step);
      StepKeeps(scale, s, step);
      if NonEmptyLoads(steps) {
        NoneEmptyKeeps(scale, s, step);
      }
    }
  }

  lemma StartIsSafe()
    ensures Inv(START) && NoneEmpty(START)
  {
  }

  /**
   * Safety over every run: each published server has a history of one to ten entries, which are the last
   * values pushed, in order; the best index is valid, and between checks it is the best of the values that the last
   * scan read; and nothing panics unless an empty list was loaded.
   */
  lemma RunIsSafe(scale: JumpScale, states: seq<State>, steps: seq<Step>, k: nat)
    requires Widens(scale) && Run(scale, states, steps) && k < |states|
    ensures var s := states[k];
            && (NonEmptyLoads(steps) ==> !s.panicked)
            && (s.published.Some? ==>
                  var g := s.published.value;
                  && (g.members != [] ==> g.best < |g.members|)
                  && (s.check.Through? ==> |s.check.seen| == |g.members| && BestOf(s.check.seen, g.best))
                  && (NonEmptyLoads(steps) ==> g.members != [])
                  && forall i :: 0 <= i < |g.members| ==>
                       && g.members[i] in s.servers
                       && var r := s.servers[g.members[i]];
                          r.history == Recent(r.pushes) && 1 <= |r.history| <= 10)
  {
    RunKeeps(scale, states, steps, k);
    var s := states[k];
    if s.published.Some? {
      var g := s.published.value;
      assert forall i :: 0 <= i < |g.members| ==> Heard(s.servers, g.members[i]);
    }
  }

  /** In every state of every run a pick panics if and only if the published list is empty. */
  lemma PickPanicsExactly(scale: JumpScale, states: seq<State>, steps: seq<Step>, k: nat, a: Access)
    requires Widens(scale) && Run(scale, states, steps) && k < |states| && Enabled(states[k], Pick(a))
    ensures PickPanics(scale, states[k], a) <==> states[k].published.value.members == []
  {
    hide Run;
    RunKeeps(scale, states, steps, k);
    PickIsSafe(scale, states[k], a);
    if states[k].published.value.members == [] {
      EmptyListPanics(scale, states[k], a);
    }
  }

  /** With an empty list published, every pick panics at its first access. */
  lemma EmptyListPanics(scale: JumpScale, s: State, a: Access)
    requires Widens(scale) && s.published.Some? && s.published.value.members == [] && !a.AtLoop?
    ensures Enabled(s, Pick(a)) && PickPanics(scale, s, a) && Apply(scale, s, Pick(a)).panicked
  {
  }

  /** The exception is real: loading an empty list, publishing it and picking is a run, and it panics. */
  lemma EmptyListRun(scale: JumpScale)
    requires Widens(scale)
    ensures exists states: seq<State> :: Run(scale, states, [Load([]), Publish, Pick(AtBest)]) && states[3].panicked
  {
    var steps := [Load([]), Publish, Pick(AtBest)];
    var s1 := Apply(scale, START, Load([]));
    assert s1.stagedCheck == Through([]);
    var s2 := Apply(scale, s1, Publish);
    EmptyListPanics(scale, s2, AtBest);
    var states := [START, s1, s2, Apply(scale, s2, Pick(AtBest))];
    assert Run(scale, states, steps);
  }
}
