/**
 Batching of event hashes for Merkle commitments: appends and any number of
 overlapping, failing commits over one pending list.
 */
module MerkleBatching {

  /** One call of `commitMerkleRoot`: waiting for the integrity check, holding the swapped-out batch, or over. */
  datatype Commit = Checking | Holding(batch: seq<string>) | Finished

  /** `appended` and `handed` are history: the hashes of ordinary events, and those of batches handed to `logEvent`. */
  datatype State = State(
    pending: seq<string>,
    committing: bool,
    commits: seq<Commit>,
    handed: seq<string>,
    appended: seq<string>)

  datatype Step =
    | Append(hash: string)
    | Call
    | Healthy(id: nat)
    | Unhealthy(id: nat)
    | Succeed(id: nat)
    | Fail(id: nat)

  /** The queue swap: the pending list moves into the call, and the guard is raised. */
  function Swapped(s: State, id: nat): State
    requires id < |s.commits|
  {
    s.(committing := true, commits := s.commits[id := Holding(s.pending)], pending := [])
  }

  ghost predicate Next(tpm: bool, s: State, step: Step, s': State) {
    match step
    case Append(h) => s' == s.(pending := s.pending + [h], appended := s.appended + [h])
    case Call =>
      s' == if s.pending == [] || s.committing then s
            else
              var t := s.(commits := s.commits + [Checking]);
              if tpm then t else Swapped(t, |s.commits|)
    case Healthy(id) => id < |s.commits| && s.commits[id].Checking? && s' == Swapped(s, id)
    case Unhealthy(id) => id < |s.commits| && s.commits[id].Checking? && s' == s.(commits := s.commits[id := Finished])
    case Succeed(id) =>
      && id < |s.commits| && s.commits[id].Holding?
      && s' == s.(committing := false, commits := s.commits[id := Finished], handed := s.handed + s.commits[id].batch)
    case Fail(id) =>
      && id < |s.commits| && s.commits[id].Holding?
      && s' == s.(committing := false, commits := s.commits[id := Finished], pending := s.commits[id].batch + s.pending)
  }

  ghost predicate Init(s: State) {
    s == State([], false, [], [], [])
  }

  // ---- Conservation

  function Held(c: Commit): seq<string> { if c.Holding? then c.batch else [] }

  ghost function InFlight(commits: seq<Commit>): multiset<string> {
    if commits == [] then multiset{} else multiset(Held(commits[0])) + InFlight(commits[1..])
  }

  /**
   Every hash of an ordinary event is in exactly one of the handed batches, the batches in flight and the
   pending list.
   */
  ghost predicate Conserved(s: State) {
    multiset(s.appended) == multiset(s.handed) + InFlight(s.commits) + multiset(s.pending)
  }

  lemma Shuffle(m: multiset<string>, a: multiset<string>, h: multiset<string>, b: multiset<string>, g: multiset<string>)
    requires a + h == b + g
    ensures m + a + h == m + b + g
  {
    assert m + a + h == m + (a + h) && m + b + g == m + (b + g);
  }

  lemma {:induction false} InFlightUpdate(commits: seq<Commit>, id: nat, c: Commit)
    requires id < |commits|
    ensures InFlight(commits[id := c]) + multiset(Held(commits[id])) == InFlight(commits) + multiset(Held(c))
  {
    if id == 0 {
      assert commits[0 := c][1..] == commits[1..];
    } else {
      InFlightUpdate(commits[1..], id - 1, c);
      assert commits[id := c][1..] == commits[1..][id - 1 := c];
      Shuffle(multiset(Held(commits[0])), InFlight(commits[1..][id - 1 := c]), multiset(Held(commits[id])),
              InFlight(commits[1..]), multiset(Held(c)));
    }
  }

  lemma {:induction false} InFlightAppend(commits: seq<Commit>, c: Commit)
    ensures InFlight(commits + [c]) == InFlight(commits) + multiset(Held(c))
  {
    if commits == [] {
      assert [c][1..] == [] && commits + [c] == [c];
    } else {
      InFlightAppend(commits[1..], c);
      assert (commits + [c])[1..] == commits[1..] + [c];
      Regroup(multiset(Held(commits[0])), InFlight(commits[1..]), multiset(Held(c)));
    }
  }

  lemma Regroup(a: multiset<string>, b: multiset<string>, c: multiset<string>)
    ensures a + (b + c) == a + b + c
  {}

  /** A call takes hold of a batch, or lets go of the one it held. */
  lemma UpdateTo(commits: seq<Commit>, id: nat, c: Commit)
    requires id < |commits| && (Held(c) == [] || Held(commits[id]) == [])
    ensures Held(commits[id]) == [] ==> InFlight(commits[id := c]) == InFlight(commits) + multiset(Held(c))
    ensures Held(c) == [] ==> InFlight(commits[id := c]) + multiset(Held(commits[id])) == InFlight(commits)
  {
    InFlightUpdate(commits, id, c);
  }

  lemma SwapConserves(s: State, id: nat)
    requires Conserved(s) && id < |s.commits| && !s.commits[id].Holding?
    ensures Conserved(Swapped(s, id))
  {
    UpdateTo(s.commits, id, Holding(s.pending));
    assert multiset(s.handed) + (InFlight(s.commits) + multiset(s.pending)) + multiset{} == multiset(s.appended);
  }

  lemma SucceedConserves(s: State, id: nat, s': State)
    requires Conserved(s) && Next(true, s, Succeed(id), s')
    ensures Conserved(s')
  {
    UpdateTo(s.commits, id, Finished);
    var b := multiset(s.commits[id].batch);
    assert multiset(s'.handed) == multiset(s.handed) + b;
    assert multiset(s.handed) + (InFlight(s'.commits) + b) == multiset(s.handed) + b + InFlight(s'.commits);
  }

  lemma FailConserves(s: State, id: nat, s': State)
    requires Conserved(s) && Next(true, s, Fail(id), s')
    ensures Conserved(s')
  {
    UpdateTo(s.commits, id, Finished);
    var b := multiset(s.commits[id].batch);
    assert multiset(s'.pending) == b + multiset(s.pending);
    assert InFlight(s'.commits) + b + multiset(s.pending) == InFlight(s'.commits) + (b + multiset(s.pending));
  }

  lemma AppendConserves(s: State, h: string)
    requires Conserved(s)
    ensures Conserved(s.(pending := s.pending + [h], appended := s.appended + [h]))
  {
    var before := multiset(s.handed) + InFlight(s.commits);
    assert multiset(s.pending + [h]) == multiset(s.pending) + multiset{h};
    assert multiset(s.appended + [h]) == multiset(s.appended) + multiset{h};
    Regroup(before, multiset(s.pending), multiset{h});
  }

  lemma CallConserves(s: State)
    requires Conserved(s)
    ensures Conserved(s.(commits := s.commits + [Checking]))
  {
    InFlightAppend(s.commits, Checking);
    assert InFlight(s.commits) + multiset([]) == InFlight(s.commits);
  }

  lemma StepConserves(tpm: bool, s: State, step: Step, s': State)
    requires Conserved(s) && Next(tpm, s, step, s')
    ensures Conserved(s')
  {
    match step
    case Append(h) => AppendConserves(s, h);
    case Call =>
      if s.pending != [] && !s.committing {
        CallConserves(s);
        if !tpm { SwapConserves(s.(commits := s.commits + [Checking]), |s.commits|); }
      }
    case Healthy(id) => SwapConserves(s, id);
    case Unhealthy(id) => UpdateTo(s.commits, id, Finished);
    case Succeed(id) => SucceedConserves(s, id, s');
    case Fail(id) => FailConserves(s, id, s');
  }

  ghost predicate IsRun(tpm: bool, states: seq<State>, steps: seq<Step>) {
    && |states| == |steps| + 1
    && Init(states[0])
    && forall i :: 0 <= i < |steps| ==> Next(tpm, states[i], steps[i], states[i + 1])
  }

  /** In every interleaving of appends and overlapping or failing commits no hash is lost or committed twice. */
  lemma {:induction false} RunConserves(tpm: bool, states: seq<State>, steps: seq<Step>, n: nat)
    requires IsRun(tpm, states, steps) && n <= |steps|
    ensures Conserved(states[n])
  {
    if n > 0 {
      RunConserves(tpm, states, steps, n - 1);
      StepConserves(tpm, states[n - 1], steps[n - 1], states[n]);
    }
  }

  // ---- Order

  /** Without an integrity check to wait for, at most one batch is in flight, and the guard says so. */
  ghost predicate Single(s: State) {
    && (forall i :: 0 <= i < |s.commits| ==> !s.commits[i].Checking?)
    && (forall i, j :: 0 <= i < |s.commits| && 0 <= j < |s.commits| ==>
          s.commits[i].Holding? && s.commits[j].Holding? ==> i == j)
    && (s.committing <==> exists i :: 0 <= i < |s.commits| && s.commits[i].Holding?)
  }

  /** The batch in flight, empty when there is none. */
  ghost predicate InOrder(s: State, batch: seq<string>) {
    && Single(s)
    && (forall i :: 0 <= i < |s.commits| && s.commits[i].Holding? ==> s.commits[i].batch == batch)
    && (!s.committing ==> batch == [])
    && s.appended == s.handed + batch + s.pending
  }

  lemma OrderKept(s: State, step: Step, s': State, batch: seq<string>) returns (batch': seq<string>)
    requires InOrder(s, batch) && Next(false, s, step, s')
    ensures InOrder(s', batch')
  {
    batch' := batch;
    match step
    case Append(h) =>
    case Call =>
      if s.pending != [] && !s.committing {
        batch' := s.pending;
        assert s'.commits[|s.commits|] == Holding(s.pending);
      }
    case Healthy(id) =>
    case Unhealthy(id) =>
    case Succeed(id) => batch' := [];
    case Fail(id) => batch' := [];
  }

  /** Then hashes are committed in the order of their events. */
  lemma {:induction false} RunOrdered(states: seq<State>, steps: seq<Step>, n: nat) returns (batch: seq<string>)
    requires IsRun(false, states, steps) && n <= |steps|
    ensures InOrder(states[n], batch)
  {
    if n == 0 {
      batch := [];
    } else {
      var before := RunOrdered(states, steps, n - 1);
      batch := OrderKept(states[n - 1], steps[n - 1], states[n], before);
    }
  }

  ghost predicate Reachable(tpm: bool, s: State) {
    exists states, steps :: IsRun(tpm, states, steps) && states[|steps|] == s
  }

  lemma ReachNext(tpm: bool, s: State, step: Step, s': State)
    requires Reachable(tpm, s) && Next(tpm, s, step, s')
    ensures Reachable(tpm, s')
  {
    var states, steps :| IsRun(tpm, states, steps) && states[|steps|] == s;
    var states', steps' := states + [s'], steps + [step];
    forall i | 0 <= i < |steps'| ensures Next(tpm, states'[i], steps'[i], states'[i + 1]) {
      if i < |steps| { assert Next(tpm, states[i], steps[i], states[i + 1]); }
    }
    assert IsRun(tpm, states', steps') && states'[|steps'|] == s';
  }

  /** With the check, two calls can pass the guard together, and the later batch can be handed over first. */
  lemma OverlapReorders() returns (s: State)
    ensures Reachable(true, s) && s.appended == ["a", "b"] && s.handed == ["b", "a"]
  {
    s := BothCheck();
    s := Advance(s, Healthy(0), State([], true, [Holding(["a"]), Checking], [], ["a"]));
    s := Advance(s, Append("b"), State(["b"], true, [Holding(["a"]), Checking], [], ["a", "b"]));
    s := Advance(s, Healthy(1), State([], true, [Holding(["a"]), Holding(["b"])], [], ["a", "b"]));
    s := Advance(s, Succeed(1), State([], false, [Holding(["a"]), Finished], ["b"], ["a", "b"]));
    s := Advance(s, Succeed(0), State([], false, [Finished, Finished], ["b", "a"], ["a", "b"]));
  }

  lemma BothCheck() returns (s: State)
    ensures Reachable(true, s) && s == State(["a"], false, [Checking, Checking], [], ["a"])
  {
    s := State([], false, [], [], []);
    assert IsRun(true, [s], []);
    s := Advance(s, Append("a"), State(["a"], false, [], [], ["a"]));
    s := Advance(s, Call, State(["a"], false, [Checking], [], ["a"]));
    s := Advance(s, Call, State(["a"], false, [Checking, Checking], [], ["a"]));
  }

  lemma Advance(s: State, step: Step, t: State) returns (s': State)
    requires Reachable(true, s) && Next(true, s, step, t)
    ensures Reachable(true, t) && s' == t
  {
    ReachNext(true, s, step, t);
    s' := t;
  }
}
