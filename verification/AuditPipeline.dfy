/**
 The append path of the audit service as a state machine: queue, batch, hash chain,
 buffer and repository, with the points between awaits as its steps and with
 failures of hashing, signing, the Merkle update and saving wherever they can occur.
 */
module AuditPipeline {
  import opened Options
  import opened CanonicalJson
  import opened Audit
  import opened AuditVerifier
  import AuditStore
  import AuditRetention
  import Timeline

  /** An event as a caller hands it in. */
  datatype Draft = Draft(
    kind: string, severity: Json, caller: Json, message: string, actor: Json, data: Json,
    correlationId: Json, timestamp: string, fromAudit: bool)

  const MAX_QUEUE_DEPTH: nat := 5000

  datatype Mode = Normal | Restricted

  /** Where the queue worker is suspended. */
  datatype Worker =
    | Stopped
    | Top
    | Pick
    | Hashing(event: AuditEvent)
    | Signing(event: AuditEvent)
    | Leafing
    | Logged

  /**
   `accepted` and `late` are history: the drafts put on the queue, and how often the worker failed
   after it had already buffered the event it was working on.
   */
  datatype State = State(
    mode: Mode,
    queue: seq<Draft>,
    batch: seq<Draft>,
    worker: Worker,
    lastHash: string,
    buffer: seq<AuditEvent>,
    flushing: Option<seq<AuditEvent>>,
    saved: seq<AuditEvent>,
    accepted: seq<Draft>,
    late: nat)
  {
    /** The ledger part: saved, then in flight, then buffered. */
    function Events(): seq<AuditEvent> {
      saved + (if flushing.Some? then flushing.value else []) + buffer
    }

    /** The drafts that have not become events: the rest of the batch, then the queue. */
    function Waiting(): seq<Draft> {
      (if worker.Leafing? || worker.Logged? then batch[if batch == [] then 0 else 1..] else batch) + queue
    }
  }

  /** Events that `logEvent` drops in restricted mode. */
  predicate Passes(mode: Mode, d: Draft) {
    mode == Normal || d.kind == "CRITICAL" || d.kind == "THREAT" || d.kind == "SUCCESS" || d.kind == MERKLE_COMMIT
  }

  predicate Admits(s: State, d: Draft) {
    !d.fromAudit && Passes(s.mode, d) && |s.queue| <= MAX_QUEUE_DEPTH
  }

  /** The event made from a draft; a missing timestamp is filled in. */
  function MakeEvent(d: Draft, id: string, now: string, prevHash: string): AuditEvent {
    AuditEvent(id, if d.timestamp == "" then now else d.timestamp, d.kind, d.severity, d.caller, d.message,
               d.actor, d.data, d.correlationId, "", prevHash, None)
  }

  /** The event records the draft. */
  ghost predicate Records(d: Draft, e: AuditEvent) {
    && e.kind == d.kind && e.severity == d.severity && e.caller == d.caller && e.message == d.message
    && e.actor == d.actor && e.data == d.data && e.correlationId == d.correlationId
    && (d.timestamp != "" ==> e.timestamp == d.timestamp)
  }

  datatype Step =
    | Log(draft: Draft)
    | TakeBatch
    | PickNext(id: string, now: string)
    | HashOk
    | HashFail
    | SignOk(signature: Option<string>)
    | SignFail
    | LeafOk
    | LateFail
    | Advance
    | FlushStart
    | FlushOk
    | FlushFail

  /**
   The exception path of the worker: what is left of the batch, the current event included, goes back to the
   queue.
   */
  function Requeued(s: State): State {
    s.(queue := s.batch + s.queue, batch := [], worker := Stopped)
  }

  ghost predicate Next(hasher: Hasher, s: State, step: Step, s': State) {
    match step
    case Log(d) =>
      && d.kind != CHECKPOINT
      && s' == if !Admits(s, d) then s
            else s.(queue := s.queue + [d], accepted := s.accepted + [d],
                    worker := if s.worker.Stopped? then Top else s.worker)
    case TakeBatch =>
      && s.worker.Top?
      && s' == if s.queue == [] then s.(worker := Stopped) else s.(batch := s.queue, queue := [], worker := Pick)
    case PickNext(id, now) =>
      && s.worker.Pick?
      && s' == if s.batch == [] then s.(worker := Top)
               else s.(worker := Hashing(MakeEvent(s.batch[0], id, now, s.lastHash)))
    case HashOk =>
      && s.worker.Hashing? && hasher(s.worker.event).Some?
      && s' == s.(worker := Signing(s.worker.event.(hash := hasher(s.worker.event).value)))
    case HashFail => s.worker.Hashing? && s' == Requeued(s)
    case SignOk(signature) =>
      && s.worker.Signing?
      && var e := s.worker.event.(hwSignature := signature);
      s' == s.(buffer := s.buffer + [e], lastHash := e.hash,
               worker := if e.kind == MERKLE_COMMIT then Logged else Leafing)
    case SignFail => s.worker.Signing? && s' == Requeued(s)
    case LeafOk => s.worker.Leafing? && s' == s.(worker := Logged)
    case LateFail => (s.worker.Leafing? || s.worker.Logged?) && s' == Requeued(s).(late := s.late + 1)
    case Advance => s.worker.Logged? && s' == s.(batch := s.batch[if s.batch == [] then 0 else 1..], worker := Pick)
    case FlushStart =>
      && s.flushing.None? && s.buffer != []
      && s' == s.(flushing := Some(s.buffer), buffer := [])
    case FlushOk =>
      && s.flushing.Some?
      && s' == s.(flushing := None, saved := s.saved + s.flushing.value)
    case FlushFail =>
      && s.flushing.Some?
      && s' == s.(flushing := None, buffer := s.flushing.value + s.buffer)
  }

  ghost predicate Init(s: State) {
    && s.queue == [] && s.batch == [] && s.worker == Stopped && s.lastHash == GENESIS
    && s.buffer == [] && s.flushing == None && s.saved == [] && s.accepted == [] && s.late == 0
  }

  // ---- The invariant

  /** The hash is computed from the hashed fields alone. */
  ghost predicate IgnoresSeal(hasher: Hasher) {
    forall e: AuditEvent, h, g :: hasher(e.(hash := h, hwSignature := g)) == hasher(e)
  }

  lemma ComputeHashIgnoresSeal(sha: Digest)
    ensures IgnoresSeal(HasherOf(sha))
  {}

  ghost predicate Ordinary(ds: seq<Draft>) {
    forall i :: 0 <= i < |ds| ==> ds[i].kind != CHECKPOINT
  }

  /** The first drafts are recorded by the events, one each, in order; the others are still waiting, in order. */
  ghost predicate Conserved(accepted: seq<Draft>, events: seq<AuditEvent>, waiting: seq<Draft>) {
    && |events| <= |accepted|
    && (forall i :: 0 <= i < |events| ==> Records(accepted[i], events[i]))
    && accepted[|events|..] == waiting
  }

  ghost predicate WorkerOk(hasher: Hasher, s: State) {
    match s.worker
    case Stopped => s.batch == []
    case Top => s.batch == []
    case Pick => true
    case Hashing(e) => s.batch != [] && Records(s.batch[0], e) && e.prevHash == s.lastHash
    case Signing(e) => s.batch != [] && Records(s.batch[0], e) && e.prevHash == s.lastHash && hasher(e) == Some(e.hash)
    case Leafing => s.batch != []
    case Logged => s.batch != []
  }

  ghost predicate Inv(hasher: Hasher, s: State) {
    && Ordinary(s.batch) && Ordinary(s.queue)
    && WorkerOk(hasher, s)
    && Chain(hasher, GENESIS, s.Events()) && s.lastHash == ChainEnd(GENESIS, s.Events())
    && |s.Events()| + |s.Waiting()| == |s.accepted| + s.late
    && (s.late == 0 ==> Conserved(s.accepted, s.Events(), s.Waiting()))
  }

  // ---- Every step keeps it

  lemma LogKeeps(hasher: Hasher, s: State, d: Draft, s': State)
    requires Inv(hasher, s) && Next(hasher, s, Log(d), s')
    ensures Inv(hasher, s')
  {
    if Admits(s, d) {
      assert s'.Events() == s.Events();
      assert s'.Waiting() == s.Waiting() + [d];
    }
  }

  lemma Regrouped(hasher: Hasher, s: State, s': State)
    requires Inv(hasher, s) && s'.Events() == s.Events() && s'.Waiting() == s.Waiting()
    requires s'.lastHash == s.lastHash && s'.accepted == s.accepted && s'.late == s.late
    requires Ordinary(s'.batch) && Ordinary(s'.queue) && WorkerOk(hasher, s')
    ensures Inv(hasher, s')
  {}

  lemma WorkerKeeps(hasher: Hasher, s: State, step: Step, s': State)
    requires Inv(hasher, s) && IgnoresSeal(hasher) && Next(hasher, s, step, s')
    requires step.TakeBatch? || step.PickNext? || step.HashOk? || step.HashFail? || step.SignFail? || step.LeafOk? ||
             step.Advance?
    ensures Inv(hasher, s')
  {
    assert s'.Events() == s.Events();
    assert s'.Waiting() == s.Waiting();
    Regrouped(hasher, s, s');
  }

  lemma LateFailKeeps(hasher: Hasher, s: State, s': State)
    requires Inv(hasher, s) && Next(hasher, s, LateFail, s')
    ensures Inv(hasher, s')
  {
    assert s'.Events() == s.Events();
    assert s'.Waiting() == [s.batch[0]] + s.Waiting();
  }

  lemma FlushKeeps(hasher: Hasher, s: State, step: Step, s': State)
    requires Inv(hasher, s) && Next(hasher, s, step, s')
    requires step.FlushStart? || step.FlushOk? || step.FlushFail?
    ensures Inv(hasher, s')
  {
    assert s'.Events() == s.Events();
    Regrouped(hasher, s, s');
  }

  lemma ChainAppend(hasher: Hasher, es: seq<AuditEvent>, e: AuditEvent)
    requires Chain(hasher, GENESIS, es) && hasher(e) == Some(e.hash) && e.kind != CHECKPOINT
    requires e.prevHash == ChainEnd(GENESIS, es)
    ensures Chain(hasher, GENESIS, es + [e]) && ChainEnd(GENESIS, es + [e]) == e.hash
  {
    ChainConcat(hasher, GENESIS, es, [e]);
    assert ChainedAt(hasher, ChainEnd(GENESIS, es), [e], 0);
  }

  lemma ConservedAppend(accepted: seq<Draft>, events: seq<AuditEvent>, waiting: seq<Draft>, e: AuditEvent)
    requires waiting != [] && Conserved(accepted, events, waiting) && Records(waiting[0], e)
    ensures Conserved(accepted, events + [e], waiting[1..])
  {
    assert accepted[|events|] == accepted[|events|..][0] == waiting[0];
    assert accepted[|events| + 1..] == accepted[|events|..][1..];
  }

  lemma SignOkKeeps(hasher: Hasher, s: State, signature: Option<string>, s': State)
    requires Inv(hasher, s) && IgnoresSeal(hasher) && Next(hasher, s, SignOk(signature), s')
    ensures Inv(hasher, s')
  {
    var e := s.worker.event.(hwSignature := signature);
    assert e == s.worker.event.(hash := s.worker.event.hash, hwSignature := signature);
    assert s'.Events() == s.Events() + [e];
    assert s'.Waiting() == s.Waiting()[1..];
    ChainAppend(hasher, s.Events(), e);
    if s.late == 0 { ConservedAppend(s.accepted, s.Events(), s.Waiting(), e); }
  }

  lemma StepKeeps(hasher: Hasher, s: State, step: Step, s': State)
    requires Inv(hasher, s) && IgnoresSeal(hasher) && Next(hasher, s, step, s')
    ensures Inv(hasher, s')
  {
    match step
    case Log(d) => LogKeeps(hasher, s, d, s');
    case SignOk(signature) => SignOkKeeps(hasher, s, signature, s');
    case LateFail => LateFailKeeps(hasher, s, s');
    case FlushStart => FlushKeeps(hasher, s, step, s');
    case FlushOk => FlushKeeps(hasher, s, step, s');
    case FlushFail => FlushKeeps(hasher, s, step, s');
    case _ => WorkerKeeps(hasher, s, step, s');
  }

  // ---- Runs

  ghost predicate IsRun(hasher: Hasher, states: seq<State>, steps: seq<Step>) {
    && |states| == |steps| + 1
    && Init(states[0])
    && forall i :: 0 <= i < |steps| ==> Next(hasher, states[i], steps[i], states[i + 1])
  }

  lemma {:induction false} RunInvariant(hasher: Hasher, states: seq<State>, steps: seq<Step>, n: nat)
    requires IgnoresSeal(hasher) && IsRun(hasher, states, steps) && n <= |steps|
    ensures Inv(hasher, states[n])
  {
    if n > 0 {
      RunInvariant(hasher, states, steps, n - 1);
      StepKeeps(hasher, states[n - 1], steps[n - 1], states[n]);
    }
  }

  /**
   In every run, whatever fails and whenever: what is saved, in flight and buffered is one hash chain
   that ends at the head; and every accepted draft is in exactly one place, in order, exactly when the
   worker never failed after buffering an event.
   */
  lemma NothingLost(hasher: Hasher, states: seq<State>, steps: seq<Step>, n: nat)
    requires IgnoresSeal(hasher) && IsRun(hasher, states, steps) && n <= |steps|
    ensures var s := states[n];
      && Chain(hasher, GENESIS, s.Events()) && s.lastHash == ChainEnd(GENESIS, s.Events())
      && (Conserved(s.accepted, s.Events(), s.Waiting()) <==> s.late == 0)
      && |s.Events()| + |s.Waiting()| == |s.accepted| + s.late
  {
    RunInvariant(hasher, states, steps, n);
  }

  ghost predicate Reachable(hasher: Hasher, s: State) {
    exists states, steps :: IsRun(hasher, states, steps) && states[|steps|] == s
  }

  lemma ReachNext(hasher: Hasher, s: State, step: Step, s': State)
    requires Reachable(hasher, s) && Next(hasher, s, step, s')
    ensures Reachable(hasher, s')
  {
    var states, steps :| IsRun(hasher, states, steps) && states[|steps|] == s;
    var states', steps' := states + [s'], steps + [step];
    forall i | 0 <= i < |steps'| ensures Next(hasher, states'[i], steps'[i], states'[i + 1]) {
      if i < |steps| { assert Next(hasher, states[i], steps[i], states[i + 1]); }
    }
    assert IsRun(hasher, states', steps') && states'[|steps'|] == s';
  }

  lemma ReachHashing(hasher: Hasher, d: Draft, id: string, now: string) returns (s: State)
    requires d.kind != CHECKPOINT && !d.fromAudit
    ensures Reachable(hasher, s) && s.mode == Normal && s.queue == [] && s.batch == [d]
    ensures s.buffer == [] && s.saved == []
    ensures s.flushing == None && s.accepted == [d] && s.late == 0
    ensures s.worker == Hashing(MakeEvent(d, id, now, GENESIS))
  {
    var start := State(Normal, [], [], Stopped, GENESIS, [], None, [], [], 0);
    assert IsRun(hasher, [start], []);
    var logged := start.(queue := [d], accepted := [d], worker := Top);
    ReachNext(hasher, start, Log(d), logged);
    var taken := logged.(batch := [d], queue := [], worker := Pick);
    ReachNext(hasher, logged, TakeBatch, taken);
    s := taken.(worker := Hashing(MakeEvent(d, id, now, GENESIS)));
    ReachNext(hasher, taken, PickNext(id, now), s);
  }

  /** A failure after the event is buffered queues any draft a second time: exact conservation is lost. */
  lemma LateFailureRepeats(hasher: Hasher, d: Draft, id: string, now: string) returns (s: State)
    requires IgnoresSeal(hasher) && d.kind != CHECKPOINT && !d.fromAudit
    requires hasher(MakeEvent(d, id, now, GENESIS)).Some?
    ensures Reachable(hasher, s) && s.accepted == [d] && s.Waiting() == [d]
    ensures |s.Events()| == 1 && Records(d, s.Events()[0])
  {
    var hashing := ReachHashing(hasher, d, id, now);
    var e := hashing.worker.event.(hash := hasher(hashing.worker.event).value);
    var signing := hashing.(worker := Signing(e));
    ReachNext(hasher, hashing, HashOk, signing);
    var sealed := e.(hwSignature := None);
    var buffered := signing.(buffer := [sealed], lastHash := e.hash,
                             worker := if e.kind == MERKLE_COMMIT then Logged else Leafing);
    ReachNext(hasher, signing, SignOk(None), buffered);
    s := buffered.(queue := [d], batch := [], worker := Stopped, late := 1);
    ReachNext(hasher, buffered, LateFail, s);
  }

  /** What a flush saves continues the chain of what was saved before. */
  lemma SavedBatchContinues(hasher: Hasher, s: State, s': State)
    requires Inv(hasher, s) && Next(hasher, s, FlushOk, s')
    ensures Chain(hasher, ChainEnd(GENESIS, s.saved), s.flushing.value)
    ensures s'.saved == s.saved + s.flushing.value && Chain(hasher, GENESIS, s'.saved)
  {
    ChainConcat(hasher, GENESIS, s.saved + s.flushing.value, s.buffer);
    ChainConcat(hasher, GENESIS, s.saved, s.flushing.value);
  }

  // ---- At least once

  /** Accepted draft i sits at position places[i] of the events followed by the waiting drafts. */
  ghost predicate FoundAt(accepted: seq<Draft>, events: seq<AuditEvent>, waiting: seq<Draft>, places: seq<nat>, i: nat)
    requires |places| == |accepted| && i < |accepted|
  {
    if places[i] < |events| then Records(accepted[i], events[places[i]])
    else places[i] - |events| < |waiting| && waiting[places[i] - |events|] == accepted[i]
  }

  /** Every accepted draft has its own place, in order. */
  ghost predicate Covered(accepted: seq<Draft>, events: seq<AuditEvent>, waiting: seq<Draft>, places: seq<nat>) {
    && |places| == |accepted|
    && (forall i, j :: 0 <= i < j < |places| ==> places[i] < places[j])
    && (forall i :: 0 <= i < |places| ==> FoundAt(accepted, events, waiting, places, i))
  }

  lemma CoverLog(accepted: seq<Draft>, events: seq<AuditEvent>, waiting: seq<Draft>, places: seq<nat>, d: Draft)
    requires Covered(accepted, events, waiting, places)
    ensures Covered(accepted + [d], events, waiting + [d], places + [|events| + |waiting|])
  {
    var more, longer, farther := accepted + [d], waiting + [d], places + [|events| + |waiting|];
    forall i | 0 <= i < |more| ensures FoundAt(more, events, longer, farther, i) {
      if i < |accepted| { assert FoundAt(accepted, events, waiting, places, i); }
    }
    forall i | 0 <= i < |places| ensures places[i] < |events| + |waiting| {
      assert FoundAt(accepted, events, waiting, places, i);
    }
  }

  lemma CoverRecord(accepted: seq<Draft>, events: seq<AuditEvent>, waiting: seq<Draft>, places: seq<nat>, e: AuditEvent)
    requires Covered(accepted, events, waiting, places) && waiting != [] && Records(waiting[0], e)
    ensures Covered(accepted, events + [e], waiting[1..], places)
  {
    forall i | 0 <= i < |accepted| ensures FoundAt(accepted, events + [e], waiting[1..], places, i) {
      assert FoundAt(accepted, events, waiting, places, i);
    }
  }

  /** A repeated draft in front of the waiting ones shifts the places behind it. */
  lemma CoverRepeat(accepted: seq<Draft>, events: seq<AuditEvent>, waiting: seq<Draft>, places: seq<nat>, d: Draft)
    returns (moved: seq<nat>)
    requires Covered(accepted, events, waiting, places)
    ensures Covered(accepted, events, [d] + waiting, moved)
  {
    moved := seq(|places|, i requires 0 <= i < |places| => if places[i] < |events| then places[i] else places[i] + 1);
    forall i | 0 <= i < |accepted| ensures FoundAt(accepted, events, [d] + waiting, moved, i) {
      assert FoundAt(accepted, events, waiting, places, i);
    }
  }

  lemma CoverStep(hasher: Hasher, s: State, step: Step, s': State, places: seq<nat>) returns (places': seq<nat>)
    requires Inv(hasher, s) && Next(hasher, s, step, s')
    requires Covered(s.accepted, s.Events(), s.Waiting(), places)
    ensures Covered(s'.accepted, s'.Events(), s'.Waiting(), places')
  {
    places' := places;
    match step
    case Log(d) =>
      if Admits(s, d) {
        LogShape(hasher, s, d, s');
        CoverLog(s.accepted, s.Events(), s.Waiting(), places, d);
        places' := places + [|s.Events()| + |s.Waiting()|];
      }
    case SignOk(signature) => CoverSign(hasher, s, signature, s', places);
    case LateFail => places' := CoverLate(hasher, s, s', places);
    case _ => QuietStep(hasher, s, step, s');
  }

  lemma LogShape(hasher: Hasher, s: State, d: Draft, s': State)
    requires Next(hasher, s, Log(d), s') && Admits(s, d)
    ensures s'.accepted == s.accepted + [d] && s'.Events() == s.Events() && s'.Waiting() == s.Waiting() + [d]
  {}

  lemma CoverSign(hasher: Hasher, s: State, signature: Option<string>, s': State, places: seq<nat>)
    requires Inv(hasher, s) && Next(hasher, s, SignOk(signature), s')
    requires Covered(s.accepted, s.Events(), s.Waiting(), places)
    ensures Covered(s'.accepted, s'.Events(), s'.Waiting(), places)
  {
    var e := s.worker.event.(hwSignature := signature);
    assert s'.Events() == s.Events() + [e] && s'.Waiting() == s.Waiting()[1..];
    CoverRecord(s.accepted, s.Events(), s.Waiting(), places, e);
  }

  lemma CoverLate(hasher: Hasher, s: State, s': State, places: seq<nat>) returns (places': seq<nat>)
    requires Inv(hasher, s) && Next(hasher, s, LateFail, s')
    requires Covered(s.accepted, s.Events(), s.Waiting(), places)
    ensures Covered(s'.accepted, s'.Events(), s'.Waiting(), places')
  {
    assert s'.Events() == s.Events() && s'.Waiting() == [s.batch[0]] + s.Waiting();
    places' := CoverRepeat(s.accepted, s.Events(), s.Waiting(), places, s.batch[0]);
  }

  /** The other steps only move events and drafts along. */
  lemma QuietStep(hasher: Hasher, s: State, step: Step, s': State)
    requires Inv(hasher, s) && Next(hasher, s, step, s') && !step.Log? && !step.SignOk? && !step.LateFail?
    ensures s'.accepted == s.accepted && s'.Events() == s.Events() && s'.Waiting() == s.Waiting()
  {}

  /** Whatever fails, no accepted draft is ever lost or overtaken. */
  lemma {:induction false} AtLeastOnce(hasher: Hasher, states: seq<State>, steps: seq<Step>, n: nat)
    returns (places: seq<nat>)
    requires IgnoresSeal(hasher) && IsRun(hasher, states, steps) && n <= |steps|
    ensures Covered(states[n].accepted, states[n].Events(), states[n].Waiting(), places)
  {
    if n == 0 {
      places := [];
    } else {
      var before := AtLeastOnce(hasher, states, steps, n - 1);
      RunInvariant(hasher, states, steps, n - 1);
      places := CoverStep(hasher, states[n - 1], steps[n - 1], states[n], before);
    }
  }

  // ---- What is recorded

  /** Exactly when a draft is taken: not from the audit itself, not too many waiting, and of the right kind. */
  lemma LogExactly(hasher: Hasher, s: State, d: Draft, s': State)
    requires Next(hasher, s, Log(d), s')
    ensures if !d.fromAudit && |s.queue| <= 5000 &&
               (s.mode == Normal || d.kind in {"CRITICAL", "THREAT", "SUCCESS", "MERKLE_COMMIT"})
            then s'.queue == s.queue + [d] && s'.accepted == s.accepted + [d] && !s'.worker.Stopped?
            else s' == s
    ensures s'.batch == s.batch && s'.Events() == s.Events() && s'.mode == s.mode && s'.lastHash == s.lastHash
  {}

  /** The event that the worker makes of the next draft: its fields, a fresh identifier, and the head as predecessor. */
  lemma PickedEvent(hasher: Hasher, s: State, id: string, now: string, s': State)
    requires Next(hasher, s, PickNext(id, now), s') && s.batch != []
    ensures s'.worker.Hashing?
    ensures var d, e := s.batch[0], s'.worker.event;
      && e.id == id && e.prevHash == s.lastHash && Records(d, e)
      && e.timestamp == (if d.timestamp == "" then now else d.timestamp)
  {}

  /** What the worker does with a sealed event: it is buffered and becomes the head; only a commit adds no leaf. */
  lemma SealedEvent(hasher: Hasher, s: State, signature: Option<string>, s': State)
    requires Inv(hasher, s) && IgnoresSeal(hasher) && Next(hasher, s, SignOk(signature), s')
    ensures |s'.buffer| == |s.buffer| + 1 && s'.buffer[..|s.buffer|] == s.buffer && s'.saved == s.saved
    ensures var e := s'.buffer[|s.buffer|];
      && s'.lastHash == e.hash && e.prevHash == s.lastHash && hasher(e) == Some(e.hash)
      && e.hwSignature == signature && Records(s.batch[0], e)
      && (s'.worker.Leafing? <==> e.kind != "MERKLE_COMMIT") && s'.batch == s.batch && s'.queue == s.queue
  {
    var e := s.worker.event.(hwSignature := signature);
    assert e == s.worker.event.(hash := s.worker.event.hash, hwSignature := signature);
  }

  const CRITICAL_KINDS: set<string> := {"CRITICAL", "THREAT", "SUCCESS", "MERKLE_COMMIT"}

  /** Whatever is waiting, in work or recorded is of a kind that restricted mode admits. */
  ghost predicate Critical(s: State) {
    && s.mode == Restricted
    && (forall i :: 0 <= i < |s.queue| ==> s.queue[i].kind in CRITICAL_KINDS)
    && (forall i :: 0 <= i < |s.batch| ==> s.batch[i].kind in CRITICAL_KINDS)
    && (s.worker.Hashing? || s.worker.Signing? ==> s.worker.event.kind in CRITICAL_KINDS)
    && (forall e :: e in s.Events() ==> e.kind in CRITICAL_KINDS)
  }

  lemma EventsAfter(hasher: Hasher, s: State, step: Step, s': State)
    requires Next(hasher, s, step, s')
    ensures forall e :: e in s'.Events() ==>
      e in s.Events() || (step.SignOk? && e == s.worker.event.(hwSignature := step.signature))
  {}

  lemma CriticalStep(hasher: Hasher, s: State, step: Step, s': State)
    requires Critical(s) && Next(hasher, s, step, s')
    ensures Critical(s')
  {
    EventsAfter(hasher, s, step, s');
  }

  /** In restricted mode a run records nothing but critical events, threats, successes and Merkle commits. */
  lemma {:induction false} RestrictedRuns(hasher: Hasher, states: seq<State>, steps: seq<Step>, n: nat)
    requires IsRun(hasher, states, steps) && n <= |steps| && states[0].mode == Restricted
    ensures Critical(states[n])
    ensures forall e :: e in states[n].Events() ==> e.kind in {"CRITICAL", "THREAT", "SUCCESS", "MERKLE_COMMIT"}
  {
    if n > 0 {
      RestrictedRuns(hasher, states, steps, n - 1);
      CriticalStep(hasher, states[n - 1], steps[n - 1], states[n]);
    }
  }

  // ---- The repository that the append path fills

  /** What is stored of the saved events, with the head of their chain. */
  function StoredLedger(clock: AuditStore.Clock, s: State): AuditStore.Ledger {
    AuditStore.Ledger(AuditStore.FiledAll(clock, [], s.saved), ChainEnd(GENESIS, s.saved))
  }

  lemma SavedChain(hasher: Hasher, s: State)
    requires Inv(hasher, s)
    ensures Chain(hasher, GENESIS, s.saved)
  {
    var rest := (if s.flushing.Some? then s.flushing.value else []) + s.buffer;
    assert s.Events() == s.saved + rest;
    ChainConcat(hasher, GENESIS, s.saved, rest);
  }

  /** A flush that succeeds is a save of the ledger that retention works on. */
  lemma FlushIsSave(hasher: Hasher, clock: AuditStore.Clock, tpm: Option<Tpm>, s: State, s': State)
    requires Inv(hasher, s) && Next(hasher, s, FlushOk, s')
    ensures var step := AuditRetention.Save(s.flushing.value);
      AuditRetention.Next(hasher, clock, tpm, StoredLedger(clock, s), step, StoredLedger(clock, s'))
  {
    SavedBatchContinues(hasher, s, s');
    ChainConcat(hasher, GENESIS, s.saved, s.flushing.value);
    Timeline.FileAllConcat(AuditStore.KeyOrder(clock), [], s.saved, s.flushing.value);
  }

  /** In every run, with any failures: when the keys ascend along the saved events, the ledger passes verification. */
  lemma SavedVerifies(hasher: Hasher, clock: AuditStore.Clock, tpm: Option<Tpm>, states: seq<State>, steps: seq<Step>,
                      n: nat)
    requires IgnoresSeal(hasher) && IsRun(hasher, states, steps) && n <= |steps|
    requires AuditStore.KeysAscend(clock, states[n].saved)
    ensures StoredLedger(clock, states[n]).repo == states[n].saved
    ensures AuditStore.Verifies(hasher, tpm, StoredLedger(clock, states[n]).repo)
  {
    RunInvariant(hasher, states, steps, n);
    SavedChain(hasher, states[n]);
    var es := states[n].saved;
    Timeline.FileInOrder(AuditStore.KeyOrder(clock), es);
    assert es[0..|es|] == es;
    AuditStore.StretchOk(hasher, tpm, es, 0, |es|);
    AcceptedForEveryLimit(hasher, tpm, es);
  }

  /** And only then, as the identifiers are distinct and the hashes tell the events apart. */
  lemma SavedVerifiesExactly(hasher: Hasher, clock: AuditStore.Clock, tpm: Option<Tpm>, states: seq<State>,
                             steps: seq<Step>, n: nat)
    requires IgnoresSeal(hasher) && IsRun(hasher, states, steps) && n <= |steps|
    requires AuditStore.Told(states[n].saved) && AuditStore.DistinctKeys(clock, states[n].saved)
    ensures AuditStore.Verifies(hasher, tpm, StoredLedger(clock, states[n]).repo) <==>
      AuditStore.KeysAscend(clock, states[n].saved)
  {
    RunInvariant(hasher, states, steps, n);
    SavedChain(hasher, states[n]);
    AuditStore.OrderExactly(clock, hasher, tpm, states[n].saved);
  }

  /** The event that the worker buffers for a draft, without a signature. */
  function Buffered(hasher: Hasher, d: Draft, id: string, now: string, prevHash: string): AuditEvent
    requires hasher(MakeEvent(d, id, now, prevHash)).Some?
  {
    var e := MakeEvent(d, id, now, prevHash);
    e.(hash := hasher(e).value)
  }

  /** A worker between two drafts records the next one. */
  lemma ReachRecorded(hasher: Hasher, s: State, id: string, now: string) returns (s': State)
    requires Reachable(hasher, s) && s.worker.Pick? && s.batch != []
    requires hasher(MakeEvent(s.batch[0], id, now, s.lastHash)).Some?
    ensures var e := Buffered(hasher, s.batch[0], id, now, s.lastHash);
      Reachable(hasher, s') && s' == s.(batch := s.batch[1..], buffer := s.buffer + [e], lastHash := e.hash)
  {
    var e := Buffered(hasher, s.batch[0], id, now, s.lastHash);
    var hashing := s.(worker := Hashing(MakeEvent(s.batch[0], id, now, s.lastHash)));
    ReachNext(hasher, s, PickNext(id, now), hashing);
    ReachNext(hasher, hashing, HashOk, s.(worker := Signing(e)));
    var recorded := s.(buffer := s.buffer + [e], lastHash := e.hash, worker := Logged);
    if e.kind == MERKLE_COMMIT {
      ReachNext(hasher, s.(worker := Signing(e)), SignOk(None), recorded);
    } else {
      ReachNext(hasher, s.(worker := Signing(e)), SignOk(None), recorded.(worker := Leafing));
      ReachNext(hasher, recorded.(worker := Leafing), LeafOk, recorded);
    }
    s' := s.(batch := s.batch[1..], buffer := s.buffer + [e], lastHash := e.hash);
    ReachNext(hasher, recorded, Advance, s');
  }

  lemma ReachTwoLogged(hasher: Hasher, c: Draft, d: Draft) returns (s: State)
    requires c.kind != CHECKPOINT && d.kind != CHECKPOINT && !c.fromAudit && !d.fromAudit
    ensures Reachable(hasher, s) && s == State(Normal, [], [c, d], Pick, GENESIS, [], None, [], [c, d], 0)
  {
    var start := State(Normal, [], [], Stopped, GENESIS, [], None, [], [], 0);
    assert IsRun(hasher, [start], []);
    var one := start.(queue := [c], accepted := [c], worker := Top);
    ReachNext(hasher, start, Log(c), one);
    var two := one.(queue := [c, d], accepted := [c, d]);
    ReachNext(hasher, one, Log(d), two);
    s := two.(batch := [c, d], queue := [], worker := Pick);
    ReachNext(hasher, two, TakeBatch, s);
  }

  /** Any two drafts can be saved one after the other. */
  lemma ReachTwoSaved(hasher: Hasher, c: Draft, d: Draft, id: string, id': string, now: string) returns (s: State)
    requires c.kind != CHECKPOINT && d.kind != CHECKPOINT && !c.fromAudit && !d.fromAudit
    requires hasher(MakeEvent(c, id, now, GENESIS)).Some?
    requires hasher(MakeEvent(d, id', now, Buffered(hasher, c, id, now, GENESIS).hash)).Some?
    ensures var a := Buffered(hasher, c, id, now, GENESIS);
      Reachable(hasher, s) && s.saved == [a, Buffered(hasher, d, id', now, a.hash)]
  {
    var two := ReachTwoLogged(hasher, c, d);
    var one := ReachRecorded(hasher, two, id, now);
    assert one.batch == [d] && one.buffer == [Buffered(hasher, c, id, now, GENESIS)];
    var none := ReachRecorded(hasher, one, id', now);
    var flushing := none.(flushing := Some(none.buffer), buffer := []);
    ReachNext(hasher, none, FlushStart, flushing);
    s := flushing.(flushing := None, saved := none.buffer);
    ReachNext(hasher, flushing, FlushOk, s);
  }

  /** Two drafts that a caller stamped in falling order are saved, and the stored ledger is rejected. */
  lemma FallingDraftsRejected(hasher: Hasher, clock: AuditStore.Clock, tpm: Option<Tpm>, c: Draft, d: Draft,
                              id: string, id': string, now: string) returns (s: State)
    requires c.kind != CHECKPOINT && d.kind != CHECKPOINT && !c.fromAudit && !d.fromAudit
    requires c.timestamp != "" && d.timestamp != "" && clock(d.timestamp) < clock(c.timestamp)
    requires IgnoresSeal(hasher) && hasher(MakeEvent(c, id, now, GENESIS)).Some?
    requires hasher(MakeEvent(d, id', now, Buffered(hasher, c, id, now, GENESIS).hash)).Some?
    requires var a := Buffered(hasher, c, id, now, GENESIS);
      AuditStore.Told([a, Buffered(hasher, d, id', now, a.hash)])
    ensures Reachable(hasher, s) && !AuditStore.Verifies(hasher, tpm, StoredLedger(clock, s).repo)
  {
    var a := Buffered(hasher, c, id, now, GENESIS);
    var b := Buffered(hasher, d, id', now, a.hash);
    s := ReachTwoSaved(hasher, c, d, id, id', now);
    forall i | 0 <= i < 2 ensures ChainedAt(hasher, GENESIS, [a, b], i) {}
    AuditStore.FallingStampsRejected(clock, hasher, tpm, a, b);
    AuditStore.KeyLaws(clock);
    Timeline.FileSwapped(AuditStore.KeyOrder(clock), a, b);
  }

  // ---- When the worker stays stopped

  /** The worker failed with more drafts queued than `logEvent` accepts on top of. */
  ghost predicate Dead(s: State) { s.worker.Stopped? && |s.queue| > MAX_QUEUE_DEPTH }

  /** A stopped worker starts again exactly when a draft is accepted. */
  lemma RestartsExactly(hasher: Hasher, s: State, step: Step, s': State)
    requires Next(hasher, s, step, s') && s.worker.Stopped?
    ensures !s'.worker.Stopped? <==> step.Log? && Admits(s, step.draft)
    ensures Dead(s) ==> s'.worker.Stopped?
  {}

  /** Once dead, the worker is dead at every later point of every run: nothing is accepted and no draft is recorded. */
  lemma {:induction false} DeadForever(hasher: Hasher, states: seq<State>, steps: seq<Step>, i: nat, j: nat)
    requires IsRun(hasher, states, steps) && i <= j <= |steps| && Dead(states[i])
    ensures Dead(states[j]) && states[j].queue == states[i].queue && states[j].accepted == states[i].accepted
    ensures states[j].Events() == states[i].Events()
    decreases j
  {
    if i < j {
      DeadForever(hasher, states, steps, i, j - 1);
      DeadStep(hasher, states[j - 1], steps[j - 1], states[j]);
    }
  }

  lemma DeadStep(hasher: Hasher, s: State, step: Step, s': State)
    requires Next(hasher, s, step, s') && Dead(s)
    ensures Dead(s') && s'.queue == s.queue && s'.accepted == s.accepted && s'.Events() == s.Events()
  {}

  lemma {:induction false} ReachQueued(hasher: Hasher, s: State, d: Draft, n: nat) returns (s': State)
    requires Reachable(hasher, s) && s.worker.Hashing? && s.mode == Normal && s.queue == []
    requires d.kind != CHECKPOINT && !d.fromAudit && n <= MAX_QUEUE_DEPTH + 1
    ensures Reachable(hasher, s') && |s'.queue| == n
    ensures s'.worker == s.worker && s'.batch == s.batch && s'.mode == s.mode
  {
    if n == 0 {
      s' := s;
    } else {
      var t := ReachQueued(hasher, s, d, n - 1);
      s' := t.(queue := t.queue + [d], accepted := t.accepted + [d]);
      ReachNext(hasher, t, Log(d), s');
    }
  }

  /** For every draft: it is hashed while the queue fills up, and then the hash fails. */
  lemma DeadReachable(hasher: Hasher, d: Draft) returns (s: State)
    requires d.kind != CHECKPOINT && !d.fromAudit
    ensures Reachable(hasher, s) && Dead(s)
  {
    var hashing := ReachHashing(hasher, d, "", "");
    var full := ReachQueued(hasher, hashing, d, MAX_QUEUE_DEPTH + 1);
    s := Requeued(full);
    ReachNext(hasher, full, HashFail, s);
  }
}
