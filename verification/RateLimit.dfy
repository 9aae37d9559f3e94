/**
 The rate limiter's delta synchronisation for one key within one window: requests,
 threshold syncs, retried writes and overlapping flushes, in every interleaving.
 */
module RateLimit {
  import opened Options

  const MAX_ATTEMPTS: nat := 3

  /**
   `retry`: it calls the action until it succeeds, at most maxAttempts times, and reports
   failure as a value. The outcomes of the successive calls are given by `outcome`.
   */
  method Retry<T>(maxAttempts: nat, outcome: nat -> Option<T>) returns (r: Option<T>, attempts: nat)
    ensures attempts <= maxAttempts
    ensures r.Some? ==> 0 < attempts && r == outcome(attempts - 1)
    ensures r.Some? ==> forall i :: 0 <= i < attempts - 1 ==> outcome(i).None?
    ensures r.None? ==> attempts == maxAttempts && forall i :: 0 <= i < maxAttempts ==> outcome(i).None?
  {
    attempts := 0;
    while attempts < maxAttempts
      invariant attempts <= maxAttempts
      invariant forall i :: 0 <= i < attempts ==> outcome(i).None?
    {
      var data := outcome(attempts);
      attempts := attempts + 1;
      if data.Some? { return data, attempts; }
    }
    return None, attempts;
  }

  // ---- The state of one key

  /** A write: about to read the stored entry, about to commit against what it read, over, or settled. */
  datatype Write =
    | Reading(delta: nat, attempt: nat)
    | Committing(delta: nat, attempt: nat, seen: Option<nat>, version: nat)
    | Over
    | Settled

  /** A flush: waiting for the write in flight when it began, then for the one it started or joined. */
  datatype Flush =
    | First(begun: nat, threw: nat, waits: Option<nat>)
    | Second(begun: nat, threw: nat, waits: Option<nat>)
    | Finished(begun: nat, threw: nat)

  /** `lost` and `throws` are history: the deltas of exhausted writes, and how many writes ended in an exception. */
  datatype State = State(
    count: nat,
    synced: nat,
    inflight: Option<nat>,
    writes: seq<Write>,
    flushes: seq<Flush>,
    stored: Option<nat>,
    version: nat,
    lost: nat,
    throws: nat)
  {
    /** The persisted counter; no entry counts as zero. */
    function Persisted(): nat { if stored.Some? then stored.value else 0 }
  }

  datatype Step =
    | Request(limit: nat)
    | Read(id: nat)
    | Commit(id: nat)
    | Refuse(id: nat)
    | Throw(id: nat)
    | Settle(id: nat)
    | FlushBegin
    | FlushSync(f: nat)
    | FlushEnd(f: nat)

  /** `syncKey`: join the write in flight, or push what has not been pushed yet. */
  function SyncKey(s: State): State {
    if s.inflight.Some? || s.count <= s.synced then s
    else
      s.(synced := s.count,
         writes := s.writes + [Reading(s.count - s.synced, 1)],
         inflight := Some(|s.writes|))
  }

  /** The threshold of `checkLimit`: half the limit, or beyond it. */
  predicate Triggers(count: nat, limit: nat) { count > limit || 2 * count >= limit }

  ghost predicate IsSettled(s: State, w: Option<nat>) {
    w.Some? ==> w.value < |s.writes| && s.writes[w.value].Settled?
  }

  ghost predicate Next(s: State, step: Step, s': State) {
    match step
    case Request(limit) =>
      var t := s.(count := s.count + 1);
      s' == if Triggers(t.count, limit) then SyncKey(t) else t
    case Read(id) =>
      && id < |s.writes| && s.writes[id].Reading?
      && var w := s.writes[id];
      s' == s.(writes := s.writes[id := Committing(w.delta, w.attempt, s.stored, s.version)])
    case Commit(id) =>
      && id < |s.writes| && s.writes[id].Committing? && s.writes[id].version == s.version
      && var w := s.writes[id];
      s' == s.(writes := s.writes[id := Over],
               stored := Some(w.delta + if w.seen.Some? then w.seen.value else 0),
               version := s.version + 1)
    case Refuse(id) =>
      && id < |s.writes| && (s.writes[id].Reading? || s.writes[id].Committing?)
      && var w := s.writes[id];
      s' == if w.attempt < MAX_ATTEMPTS then s.(writes := s.writes[id := Reading(w.delta, w.attempt + 1)])
            else s.(writes := s.writes[id := Over], lost := s.lost + w.delta)
    case Throw(id) =>
      && id < |s.writes| && (s.writes[id].Reading? || s.writes[id].Committing?)
      && var w := s.writes[id];
      s' == s.(writes := s.writes[id := Over],
               synced := if s.synced >= w.delta then s.synced - w.delta else 0,
               throws := s.throws + 1)
    case Settle(id) =>
      && id < |s.writes| && s.writes[id].Over?
      && s' == s.(writes := s.writes[id := Settled], inflight := if s.inflight == Some(id) then None else s.inflight)
    case FlushBegin => s' == s.(flushes := s.flushes + [First(s.count, s.throws, s.inflight)])
    case FlushSync(f) =>
      && f < |s.flushes| && s.flushes[f].First? && IsSettled(s, s.flushes[f].waits)
      && var t := SyncKey(s);
      s' == t.(flushes := t.flushes[f := Second(s.flushes[f].begun, s.flushes[f].threw, t.inflight)])
    case FlushEnd(f) =>
      && f < |s.flushes| && s.flushes[f].Second? && IsSettled(s, s.flushes[f].waits)
      && s' == s.(flushes := s.flushes[f := Finished(s.flushes[f].begun, s.flushes[f].threw)])
  }

  ghost predicate Init(s: State) {
    s == State(0, 0, None, [], [], None, 0, 0, 0)
  }

  // ---- The invariant

  /** The delta that is on its way. */
  function Pending(s: State): nat {
    if s.inflight.Some? && s.inflight.value < |s.writes| then
      var w := s.writes[s.inflight.value];
      if w.Reading? || w.Committing? then w.delta else 0
    else 0
  }

  /** At most one write is not settled, and it is the one in flight. */
  ghost predicate OneWrite(s: State) {
    && (forall id :: 0 <= id < |s.writes| && !s.writes[id].Settled? ==> s.inflight == Some(id))
    && (s.inflight.Some? ==> s.inflight.value < |s.writes| && !s.writes[s.inflight.value].Settled?)
  }

  ghost predicate WriteOk(s: State, w: Write) {
    && (w.Reading? || w.Committing? ==> 0 < w.delta && 1 <= w.attempt <= MAX_ATTEMPTS)
    && (w.Committing? ==> w.seen == s.stored && w.version == s.version)
  }

  /** There was no further traffic since the flush began, and no write threw. */
  ghost predicate Quiet(s: State, f: Flush) { s.count == f.begun && s.throws == f.threw }

  /** What a flush can rely on in the meantime. */
  ghost predicate FlushOk(s: State, f: Flush) {
    && f.begun <= s.count && f.threw <= s.throws
    && (!f.Finished? && f.waits.Some? ==> f.waits.value < |s.writes|)
    && (Quiet(s, f) ==>
          match f
          case First(_, _, waits) => s.inflight.Some? && s.inflight != waits ==> s.synced == s.count
          case Second(_, _, waits) => s.synced == s.count && (s.inflight.Some? ==> s.inflight == waits)
          case Finished(_, _) => s.synced == s.count && s.inflight.None?)
  }

  ghost predicate Inv(s: State) {
    && OneWrite(s)
    && s.Persisted() + Pending(s) + s.lost == s.synced <= s.count
    && (forall id :: 0 <= id < |s.writes| ==> WriteOk(s, s.writes[id]))
    && (forall f :: 0 <= f < |s.flushes| ==> FlushOk(s, s.flushes[f]))
  }

  lemma SyncKeyKeeps(s: State)
    requires Inv(s)
    ensures Inv(SyncKey(s))
    ensures SyncKey(s).inflight.None? ==> SyncKey(s).synced == s.count
  {}

  /** From half the limit on, no request leaves its count unpushed without a write in flight; before, none writes. */
  lemma RequestSyncs(s: State, limit: nat, s': State)
    requires Inv(s) && Next(s, Request(limit), s')
    ensures s'.count == s.count + 1 && s'.Persisted() == s.Persisted()
    ensures 2 * s'.count >= limit ==> s'.inflight.Some? || s'.synced == s'.count
    ensures 2 * s'.count < limit ==> s'.writes == s.writes && s'.inflight == s.inflight && s'.synced == s.synced
  {
    SyncKeyKeeps(s.(count := s.count + 1));
  }

  lemma RequestKeeps(s: State, limit: nat, s': State)
    requires Inv(s) && Next(s, Request(limit), s')
    ensures Inv(s')
  {
    var t := s.(count := s.count + 1);
    assert Pending(t) == Pending(s);
    forall id | 0 <= id < |t.writes| ensures WriteOk(t, t.writes[id]) { assert WriteOk(s, s.writes[id]); }
    forall f | 0 <= f < |t.flushes| ensures FlushOk(t, t.flushes[f]) { assert FlushOk(s, s.flushes[f]); }
    SyncKeyKeeps(t);
  }

  /** A step of the write in flight. */
  lemma WriteKeeps(s: State, step: Step, s': State)
    requires Inv(s) && Next(s, step, s') && (step.Read? || step.Commit? || step.Refuse? || step.Throw? || step.Settle?)
    ensures Inv(s')
  {
    var id := step.id;
    assert s.inflight == Some(id) && WriteOk(s, s.writes[id]);
    forall f | 0 <= f < |s'.flushes| ensures FlushOk(s', s'.flushes[f]) { assert FlushOk(s, s.flushes[f]); }
  }

  lemma FlushSyncKeeps(s: State, f: nat, s': State)
    requires Inv(s) && Next(s, FlushSync(f), s')
    ensures Inv(s')
  {
    var t := SyncKey(s);
    SyncKeyKeeps(s);
    assert FlushOk(s, s.flushes[f]);
    assert Pending(s') == Pending(t);
    forall id | 0 <= id < |s'.writes| ensures WriteOk(s', s'.writes[id]) { assert WriteOk(t, t.writes[id]); }
    forall g | 0 <= g < |s'.flushes| ensures FlushOk(s', s'.flushes[g]) {
      if g != f { assert FlushOk(t, t.flushes[g]); }
    }
  }

  lemma FlushEdgeKeeps(s: State, step: Step, s': State)
    requires Inv(s) && Next(s, step, s') && (step.FlushBegin? || step.FlushEnd?)
    ensures Inv(s')
  {
    assert Pending(s') == Pending(s);
    forall id | 0 <= id < |s'.writes| ensures WriteOk(s', s'.writes[id]) { assert WriteOk(s, s.writes[id]); }
    forall g | 0 <= g < |s'.flushes| ensures FlushOk(s', s'.flushes[g]) {
      if g < |s.flushes| { assert FlushOk(s, s.flushes[g]); }
    }
  }

  lemma StepKeeps(s: State, step: Step, s': State)
    requires Inv(s) && Next(s, step, s')
    ensures Inv(s')
  {
    match step
    case Request(limit) => RequestKeeps(s, limit, s');
    case FlushSync(f) => FlushSyncKeeps(s, f, s');
    case FlushBegin => FlushEdgeKeeps(s, step, s');
    case FlushEnd(f) => FlushEdgeKeeps(s, step, s');
    case _ => WriteKeeps(s, step, s');
  }

  // ---- Runs

  ghost predicate IsRun(states: seq<State>, steps: seq<Step>) {
    && |states| == |steps| + 1
    && Init(states[0])
    && forall i :: 0 <= i < |steps| ==> Next(states[i], steps[i], states[i + 1])
  }

  lemma {:induction false} RunInvariant(states: seq<State>, steps: seq<Step>, n: nat)
    requires IsRun(states, steps) && n <= |steps|
    ensures Inv(states[n])
  {
    if n > 0 {
      RunInvariant(states, steps, n - 1);
      StepKeeps(states[n - 1], steps[n - 1], states[n]);
    }
  }

  /** In every run at most one write is under way, and the stored counter never exceeds the local count. */
  lemma NeverOvercounts(states: seq<State>, steps: seq<Step>, n: nat)
    requires IsRun(states, steps) && n <= |steps|
    ensures states[n].Persisted() <= states[n].count
    ensures forall i, j :: 0 <= i < j < |states[n].writes| ==>
      states[n].writes[i].Settled? || states[n].writes[j].Settled?
    ensures states[n].Persisted() + Pending(states[n]) + states[n].lost == states[n].synced <= states[n].count
  {
    RunInvariant(states, steps, n);
  }

  /**
   Once a flush has finished, with no traffic and no exception since it began, the stored counter is the
   local count less what exhausted writes lost: it is the local count exactly when every sync committed
   within its attempts.
   */
  lemma FlushDrains(states: seq<State>, steps: seq<Step>, n: nat, f: nat)
    requires IsRun(states, steps) && n <= |steps|
    requires f < |states[n].flushes| && states[n].flushes[f].Finished? && Quiet(states[n], states[n].flushes[f])
    ensures states[n].Persisted() + states[n].lost == states[n].count && states[n].inflight.None?
    ensures states[n].Persisted() == states[n].count <==> states[n].lost == 0
  {
    RunInvariant(states, steps, n);
    assert FlushOk(states[n], states[n].flushes[f]);
  }

  // ---- Deltas can be lost

  ghost predicate Reachable(s: State) {
    exists states, steps :: IsRun(states, steps) && states[|steps|] == s
  }

  lemma Advance(s: State, step: Step, t: State) returns (s': State)
    requires Reachable(s) && Next(s, step, t)
    ensures Reachable(t) && s' == t
  {
    var states, steps :| IsRun(states, steps) && states[|steps|] == s;
    var states', steps' := states + [t], steps + [step];
    forall i | 0 <= i < |steps'| ensures Next(states'[i], steps'[i], states'[i + 1]) {
      if i < |steps| { assert Next(states[i], steps[i], states[i + 1]); }
    }
    assert IsRun(states', steps') && states'[|steps'|] == t;
    s' := t;
  }

  /** From wherever a write is about to start its first attempt, three refusals lose its delta. */
  lemma ExhaustedLoses(s: State, id: nat) returns (s': State)
    requires Reachable(s) && id < |s.writes| && s.writes[id].Reading? && s.writes[id].attempt == 1
    ensures Reachable(s') && s' == s.(writes := s.writes[id := Over], lost := s.lost + s.writes[id].delta)
  {
    var d := s.writes[id].delta;
    var second := Advance(s, Refuse(id), s.(writes := s.writes[id := Reading(d, 2)]));
    var third := Advance(second, Refuse(id), s.(writes := s.writes[id := Reading(d, 3)]));
    s' := Advance(third, Refuse(id), s.(writes := s.writes[id := Over], lost := s.lost + d));
  }

  /** A flush with nothing left to push finishes at once. */
  lemma IdleFlush(s: State) returns (s': State)
    requires Reachable(s) && s.inflight.None? && s.count <= s.synced && s.flushes == []
    ensures Reachable(s') && s' == s.(flushes := [Finished(s.count, s.throws)])
  {
    s' := Advance(s, FlushBegin, s.(flushes := [First(s.count, s.throws, None)]));
    s' := Advance(s', FlushSync(0), s.(flushes := [Second(s.count, s.throws, None)]));
    s' := Advance(s', FlushEnd(0), s.(flushes := [Finished(s.count, s.throws)]));
  }

  lemma RequestLost(limit: nat) returns (s: State)
    requires limit <= 2
    ensures Reachable(s) && s == State(1, 1, None, [Settled], [], None, 0, 1, 0)
  {
    var start := State(0, 0, None, [], [], None, 0, 0, 0);
    assert IsRun([start], []);
    s := Advance(start, Request(limit), State(1, 1, Some(0), [Reading(1, 1)], [], None, 0, 0, 0));
    s := ExhaustedLoses(s, 0);
    s := Advance(s, Settle(0), State(1, 1, None, [Settled], [], None, 0, 1, 0));
  }

  /** A request, an exhausted write and a finished flush: the count is one, and nothing is stored. */
  lemma LostAfterFlush(limit: nat) returns (s: State)
    requires limit <= 2
    ensures Reachable(s) && s.flushes == [Finished(1, 0)] && Quiet(s, s.flushes[0])
    ensures s.count == 1 && s.lost == 1 && s.Persisted() == 0
  {
    s := RequestLost(limit);
    s := IdleFlush(s);
  }
}
