/**
 The ledgers of local appends and retention: in every run of saved batches, saved
 checkpoints and deletions the verifier accepts them, as long as the keys ascend
 along the saved events, and only then.
 */
module AuditRetention {
  import opened Options
  import opened CanonicalJson
  import opened Audit
  import opened AuditVerifier
  import opened AuditStore
  import Timeline

  // ---- Steps

  datatype Step =
    | Save(batch: seq<AuditEvent>)
    | SaveCheckpoint(id: string, now: string, hash: string, boundary: AuditEvent)
    | Delete(cutoff: int, n: nat)

  /** A batch continues the chain; a checkpoint leaves the head alone; a deletion may stop after any number. */
  ghost predicate Next(hasher: Hasher, clock: Clock, tpm: Option<Tpm>, l: Ledger, step: Step, l': Ledger) {
    match step
    case Save(batch) =>
      && Chain(hasher, l.lastHash, batch)
      && l' == Ledger(FiledAll(clock, l.repo, batch), ChainEnd(l.lastHash, batch))
    case SaveCheckpoint(id, now, hash, boundary) =>
      l' == l.(repo := Filed(clock, l.repo, Checkpoint(tpm, id, now, hash, boundary)))
    case Delete(cutoff, n) =>
      l' == l.(repo := Survivors(clock, cutoff, l.repo, n))
  }

  /** A purge is at most these two steps, with any other steps allowed in between. */
  lemma PurgeIsSteps(hasher: Hasher, clock: Clock, tpm: Option<Tpm>, l: Ledger, cutoff: int,
                     id: string, now: string, hash: string, boundary: AuditEvent, fault: PurgeFault)
    requires !fault.BeforeSave?
    ensures var c := Checkpoint(tpm, id, now, hash, boundary);
      var mid := l.(repo := Filed(clock, l.repo, c));
      && Next(hasher, clock, tpm, l, SaveCheckpoint(id, now, hash, boundary), mid)
      && exists n :: Next(hasher, clock, tpm, mid, Delete(cutoff, n),
                          l.(repo := AfterPurge(clock, cutoff, l.repo, c, fault)))
  {
    var c := Checkpoint(tpm, id, now, hash, boundary);
    var mid := l.(repo := Filed(clock, l.repo, c));
    var n := if fault.DuringDelete? then fault.done else |mid.repo|;
    assert Next(hasher, clock, tpm, mid, Delete(cutoff, n), l.(repo := AfterPurge(clock, cutoff, l.repo, c, fault)));
  }

  // ---- The invariant

  /** All ordinary events that were ever saved, in order. */
  function SavedBy(steps: seq<Step>): seq<AuditEvent> {
    if steps == [] then []
    else
      var n := |steps| - 1;
      SavedBy(steps[..n]) + if steps[n].Save? then steps[n].batch else []
  }

  /** A checkpoint of this node, acceptable to the verifier. */
  ghost predicate OwnCheckpoint(tpm: Option<Tpm>, e: AuditEvent) {
    e.kind == CHECKPOINT && e.prevHash == TRUNCATED && CheckpointOk(tpm, e)
  }

  /** Something is stored under the key. */
  ghost predicate Taken<T(!new)>(before: (T, T) -> bool, repo: seq<T>, e: T) {
    exists x :: x in repo && Timeline.SameKey(before, x, e)
  }

  /** From any ordinary event on, everything that was saved is stored, or a checkpoint is stored over it. */
  ghost predicate Gapless<T(!new)>(before: (T, T) -> bool, repo: seq<T>, all: seq<T>) {
    forall x, k :: x in repo && x in all && 0 <= k < |all| && !before(all[k], x) ==> Taken(before, repo, all[k])
  }

  ghost predicate Stocked(tpm: Option<Tpm>, repo: seq<AuditEvent>, all: seq<AuditEvent>) {
    forall x :: x in repo ==> x in all || OwnCheckpoint(tpm, x)
  }

  ghost predicate LocalOk(clock: Clock, tpm: Option<Tpm>, repo: seq<AuditEvent>, all: seq<AuditEvent>) {
    && KeysAscend(clock, repo) && Stocked(tpm, repo, all) && Gapless(KeyOrder(clock), repo, all)
  }

  /** What is taken stays taken when something is saved. */
  lemma TakenKept<T(!new)>(before: (T, T) -> bool, repo: seq<T>, e: T, f: T)
    requires Timeline.IsOrder(before) && Timeline.Ascending(before, repo)
    ensures Taken(before, repo, f) || Timeline.SameKey(before, e, f) ==>
      Taken(before, Timeline.File(before, repo, e), f)
  {
    Timeline.FileMembers(before, repo, e, e);
    if Taken(before, repo, f) && !Timeline.SameKey(before, e, f) {
      var x :| x in repo && Timeline.SameKey(before, x, f);
      Timeline.FileMembers(before, repo, e, x);
      Timeline.Law(before, e, x, f);
      Timeline.Law(before, f, x, e);
    }
  }

  /** Anything filed over a gapless ledger leaves it gapless, as far as the saved events go. */
  lemma FileGapless<T(!new)>(before: (T, T) -> bool, repo: seq<T>, e: T, all: seq<T>)
    requires Timeline.IsOrder(before) && Timeline.Ascending(before, repo) && Gapless(before, repo, all) && e !in all
    ensures Gapless(before, Timeline.File(before, repo, e), all)
  {
    var filed := Timeline.File(before, repo, e);
    forall x, k | x in filed && x in all && 0 <= k < |all| && !before(all[k], x) ensures Taken(before, filed, all[k]) {
      Timeline.FileMembers(before, repo, e, x);
      TakenKept(before, repo, e, all[k]);
    }
  }

  /** An event saved behind all others leaves no gap. */
  lemma AppendGapless<T(!new)>(before: (T, T) -> bool, repo: seq<T>, e: T, all: seq<T>)
    requires Timeline.IsOrder(before) && Timeline.Ascending(before, repo) && Gapless(before, repo, all)
    requires forall i :: 0 <= i < |all| ==> before(all[i], e)
    ensures Gapless(before, Timeline.File(before, repo, e), all + [e])
  {
    var filed := Timeline.File(before, repo, e);
    forall x, k | x in filed && x in all + [e] && 0 <= k < |all + [e]| && !before((all + [e])[k], x)
      ensures Taken(before, filed, (all + [e])[k])
    {
      Timeline.FileMembers(before, repo, e, x);
      Timeline.Law(before, e, e, e);
      TakenKept(before, repo, e, (all + [e])[k]);
    }
  }

  /** A deletion from the front leaves no gap behind what is left. */
  lemma DropGapless<T(!new)>(before: (T, T) -> bool, repo: seq<T>, all: seq<T>, d: nat)
    requires Timeline.IsOrder(before) && Timeline.Ascending(before, repo) && Gapless(before, repo, all) && d <= |repo|
    ensures Gapless(before, repo[d..], all)
  {
    var left := repo[d..];
    forall x, k | x in left && x in all && 0 <= k < |all| && !before(all[k], x) ensures Taken(before, left, all[k]) {
      var i :| 0 <= i < |left| && left[i] == x;
      assert repo[d + i] == x;
      var y :| y in repo && Timeline.SameKey(before, y, all[k]);
      var j :| 0 <= j < |repo| && repo[j] == y;
      if j < d { Timeline.Law(before, y, all[k], x); }
      assert left[j - d] == y;
    }
  }

  lemma CheckpointKeeps(clock: Clock, tpm: Option<Tpm>, repo: seq<AuditEvent>, c: AuditEvent, all: seq<AuditEvent>)
    requires LocalOk(clock, tpm, repo, all) && OwnCheckpoint(tpm, c) && c !in all
    ensures LocalOk(clock, tpm, Filed(clock, repo, c), all)
  {
    KeyLaws(clock);
    Timeline.FileAscending(KeyOrder(clock), repo, c);
    FileGapless(KeyOrder(clock), repo, c, all);
    forall x | x in Filed(clock, repo, c) ensures x in all || OwnCheckpoint(tpm, x) {
      Timeline.FileMembers(KeyOrder(clock), repo, c, x);
    }
  }

  lemma EventKeeps(clock: Clock, tpm: Option<Tpm>, repo: seq<AuditEvent>, e: AuditEvent, all: seq<AuditEvent>)
    requires LocalOk(clock, tpm, repo, all) && KeysAscend(clock, all + [e])
    ensures LocalOk(clock, tpm, Filed(clock, repo, e), all + [e])
  {
    KeyLaws(clock);
    var b := KeyOrder(clock);
    Timeline.FileAscending(b, repo, e);
    forall i | 0 <= i < |all| ensures b(all[i], e) {
      assert (all + [e])[i] == all[i] && (all + [e])[|all|] == e;
    }
    AppendGapless(b, repo, e, all);
    forall x | x in Filed(clock, repo, e) ensures x in all + [e] || OwnCheckpoint(tpm, x) {
      Timeline.FileMembers(b, repo, e, x);
    }
  }

  lemma {:induction false} SaveKeeps(clock: Clock, tpm: Option<Tpm>, repo: seq<AuditEvent>, batch: seq<AuditEvent>,
                                     all: seq<AuditEvent>)
    requires LocalOk(clock, tpm, repo, all) && KeysAscend(clock, all + batch)
    ensures LocalOk(clock, tpm, FiledAll(clock, repo, batch), all + batch)
    decreases |batch|
  {
    if batch == [] {
      assert all + batch == all;
    } else {
      var n := |batch| - 1;
      var before := all + batch[..n];
      assert all + batch == before + [batch[n]];
      AscendPrefix(clock, before, [batch[n]]);
      SaveKeeps(clock, tpm, repo, batch[..n], all);
      EventKeeps(clock, tpm, FiledAll(clock, repo, batch[..n]), batch[n], before);
    }
  }

  lemma AscendPrefix(clock: Clock, a: seq<AuditEvent>, b: seq<AuditEvent>)
    requires KeysAscend(clock, a + b)
    ensures KeysAscend(clock, a)
  {
    assert forall i :: 0 <= i < |a| ==> (a + b)[i] == a[i];
  }

  lemma DeleteKeeps(clock: Clock, tpm: Option<Tpm>, repo: seq<AuditEvent>, cutoff: int, n: nat, all: seq<AuditEvent>)
    requires LocalOk(clock, tpm, repo, all)
    ensures LocalOk(clock, tpm, Survivors(clock, cutoff, repo, n), all)
  {
    var d := SurvivorsSuffix(clock, cutoff, repo, n);
    KeyLaws(clock);
    DropGapless(KeyOrder(clock), repo, all, d);
  }

  // ---- Runs

  ghost predicate IsRun(hasher: Hasher, clock: Clock, tpm: Option<Tpm>, ledgers: seq<Ledger>, steps: seq<Step>) {
    && |ledgers| == |steps| + 1
    && ledgers[0] == Ledger([], GENESIS)
    && forall i :: 0 <= i < |steps| ==> Next(hasher, clock, tpm, ledgers[i], steps[i], ledgers[i + 1])
  }

  /** A verifier without the module, or with the one that signs, which accepts its own signatures. */
  ghost predicate Trusted(tpm: Option<Tpm>, verifier: Option<Tpm>) {
    (tpm.Some? ==> Sound(tpm.value)) && (verifier == tpm || verifier.None?)
  }

  /** What was saved is one hash chain, which ends at the head. */
  lemma {:induction false} SavedChain(hasher: Hasher, clock: Clock, tpm: Option<Tpm>,
                                      ledgers: seq<Ledger>, steps: seq<Step>, n: nat)
    requires IsRun(hasher, clock, tpm, ledgers, steps) && n <= |steps|
    ensures Chain(hasher, GENESIS, SavedBy(steps[..n])) && ledgers[n].lastHash == ChainEnd(GENESIS, SavedBy(steps[..n]))
  {
    if n > 0 {
      SavedChain(hasher, clock, tpm, ledgers, steps, n - 1);
      assert steps[..n][..n - 1] == steps[..n - 1];
      assert Next(hasher, clock, tpm, ledgers[n - 1], steps[n - 1], ledgers[n]);
      var all, step := SavedBy(steps[..n - 1]), steps[n - 1];
      ChainConcat(hasher, GENESIS, all, if step.Save? then step.batch else []);
    }
  }

  lemma {:induction false} RunInvariant(hasher: Hasher, clock: Clock, tpm: Option<Tpm>, verifier: Option<Tpm>,
                                        ledgers: seq<Ledger>, steps: seq<Step>, n: nat)
    requires IsRun(hasher, clock, tpm, ledgers, steps) && n <= |steps| && Trusted(tpm, verifier)
    requires KeysAscend(clock, SavedBy(steps[..n]))
    ensures LocalOk(clock, verifier, ledgers[n].repo, SavedBy(steps[..n]))
  {
    if n > 0 {
      var before, step := steps[..n - 1], steps[n - 1];
      assert steps[..n][..n - 1] == before;
      var all := SavedBy(before);
      AscendPrefix(clock, all, if step.Save? then step.batch else []);
      RunInvariant(hasher, clock, tpm, verifier, ledgers, steps, n - 1);
      SavedChain(hasher, clock, tpm, ledgers, steps, n - 1);
      assert Next(hasher, clock, tpm, ledgers[n - 1], step, ledgers[n]);
      StepKeeps(hasher, clock, tpm, verifier, ledgers[n - 1], step, ledgers[n], all);
    }
  }

  lemma StepKeeps(hasher: Hasher, clock: Clock, tpm: Option<Tpm>, verifier: Option<Tpm>,
                  l: Ledger, step: Step, l': Ledger, all: seq<AuditEvent>)
    requires LocalOk(clock, verifier, l.repo, all) && Trusted(tpm, verifier) && Chain(hasher, GENESIS, all)
    requires Next(hasher, clock, tpm, l, step, l')
    requires KeysAscend(clock, all + if step.Save? then step.batch else [])
    ensures LocalOk(clock, verifier, l'.repo, all + if step.Save? then step.batch else [])
  {
    assert all + [] == all;
    match step
    case Save(batch) => SaveKeeps(clock, verifier, l.repo, batch, all);
    case SaveCheckpoint(id, now, hash, boundary) =>
      var c := Checkpoint(tpm, id, now, hash, boundary);
      CheckpointAccepted(hasher, tpm, id, now, hash, boundary);
      assert c !in all by {
        forall i | 0 <= i < |all| ensures all[i] != c { assert ChainedAt(hasher, GENESIS, all, i); }
      }
      CheckpointKeeps(clock, verifier, l.repo, c, all);
    case Delete(cutoff, n) => DeleteKeeps(clock, verifier, l.repo, cutoff, n, all);
  }

  /** Two saved events that are neighbours in a gapless ledger are neighbours in the order of saving. */
  lemma Neighbours<T(!new)>(before: (T, T) -> bool, repo: seq<T>, all: seq<T>, p: nat, i: nat, j: nat)
    requires Timeline.IsOrder(before) && Timeline.Ascending(before, repo) && Timeline.Ascending(before, all)
    requires Gapless(before, repo, all) && p + 1 < |repo| && i < |all| && j < |all|
    requires repo[p] == all[i] && repo[p + 1] == all[j]
    ensures j == i + 1
  {
    assert before(all[i], all[j]);
    Timeline.Law(before, all[i], all[j], all[i]);
    assert i < j;
    if j > i + 1 {
      var m := i + 1;
      assert before(all[i], all[m]) && before(all[m], all[j]);
      Timeline.Law(before, all[i], all[m], all[i]);
      assert repo[p] in repo && repo[p] in all && !before(all[m], repo[p]);
      assert Taken(before, repo, all[m]);
      var w :| w in repo && Timeline.SameKey(before, w, all[m]);
      NothingBetween(before, repo, p, w, all[m]);
    }
  }

  lemma NothingBetween<T(!new)>(before: (T, T) -> bool, repo: seq<T>, p: nat, w: T, e: T)
    requires Timeline.IsOrder(before) && Timeline.Ascending(before, repo) && p + 1 < |repo| && w in repo
    requires Timeline.SameKey(before, w, e)
    ensures !(before(repo[p], e) && before(e, repo[p + 1]))
  {
    var q :| 0 <= q < |repo| && repo[q] == w;
    Timeline.Law(before, repo[p], w, e);
    Timeline.Law(before, e, w, repo[p + 1]);
    if q <= p {
      Timeline.Law(before, repo[p], repo[q], repo[p]);
    } else {
      Timeline.Law(before, repo[p + 1], repo[q], repo[p + 1]);
    }
  }

  lemma NeighboursLinked(hasher: Hasher, clock: Clock, tpm: Option<Tpm>, repo: seq<AuditEvent>,
                         all: seq<AuditEvent>, i: nat)
    requires LocalOk(clock, tpm, repo, all) && Chain(hasher, GENESIS, all) && KeysAscend(clock, all)
    requires 0 < i < |repo|
    ensures LinkedBack(repo, i)
  {
    var x, y := repo[i - 1], repo[i];
    if x in all && y in all {
      var a :| 0 <= a < |all| && all[a] == x;
      var b :| 0 <= b < |all| && all[b] == y;
      KeyLaws(clock);
      Neighbours(KeyOrder(clock), repo, all, i - 1, a, b);
      assert ChainedAt(hasher, GENESIS, all, b);
    } else {
      assert x in repo && y in repo;
    }
  }

  lemma LocalOkVerifies(hasher: Hasher, clock: Clock, tpm: Option<Tpm>, repo: seq<AuditEvent>, all: seq<AuditEvent>)
    requires LocalOk(clock, tpm, repo, all) && Chain(hasher, GENESIS, all) && KeysAscend(clock, all)
    ensures LedgerOk(hasher, tpm, repo)
  {
    forall i | 0 <= i < |repo| ensures EventOk(hasher, tpm, repo[i]) {
      assert repo[i] in repo;
      if repo[i] in all {
        var k :| 0 <= k < |all| && all[k] == repo[i];
        assert ChainedAt(hasher, GENESIS, all, k);
      }
    }
    forall i | 0 < i < |repo| ensures LinkedBack(repo, i) { NeighboursLinked(hasher, clock, tpm, repo, all, i); }
  }

  /**
   Verification accepts, for every limit, every ledger of any run of saved batches, checkpoints and
   deletions in which the keys ascend along the saved events; checkpoints may have any key.
   */
  lemma LocalLedgersVerify(hasher: Hasher, clock: Clock, tpm: Option<Tpm>, verifier: Option<Tpm>,
                           ledgers: seq<Ledger>, steps: seq<Step>, n: nat)
    requires IsRun(hasher, clock, tpm, ledgers, steps) && n <= |steps| && Trusted(tpm, verifier)
    requires KeysAscend(clock, SavedBy(steps[..n]))
    ensures Verifies(hasher, verifier, ledgers[n].repo)
  {
    var all, repo := SavedBy(steps[..n]), ledgers[n].repo;
    RunInvariant(hasher, clock, tpm, verifier, ledgers, steps, n);
    SavedChain(hasher, clock, tpm, ledgers, steps, n);
    LocalOkVerifies(hasher, clock, verifier, repo, all);
    AcceptedForEveryLimit(hasher, verifier, repo);
  }

  // ---- The order is needed

  /** Saving a chain at once is a run. */
  lemma SaveRun(hasher: Hasher, clock: Clock, tpm: Option<Tpm>, es: seq<AuditEvent>)
    returns (ledgers: seq<Ledger>, steps: seq<Step>)
    requires Chain(hasher, GENESIS, es)
    ensures IsRun(hasher, clock, tpm, ledgers, steps) && SavedBy(steps) == es
    ensures ledgers[|steps|].repo == FiledAll(clock, [], es)
  {
    var start, saved := Ledger([], GENESIS), Ledger(FiledAll(clock, [], es), ChainEnd(GENESIS, es));
    ledgers, steps := [start, saved], [Save(es)];
    assert Next(hasher, clock, tpm, start, Save(es), saved);
    assert steps[..0] == [] && [] + es == es;
  }

  /** All runs that save a chain of events verify exactly when the keys ascend along it. */
  lemma RunsVerifyExactly(hasher: Hasher, clock: Clock, tpm: Option<Tpm>, verifier: Option<Tpm>, es: seq<AuditEvent>)
    requires Chain(hasher, GENESIS, es) && Told(es) && DistinctKeys(clock, es) && Trusted(tpm, verifier)
    ensures KeysAscend(clock, es) <==>
      forall ledgers: seq<Ledger>, steps: seq<Step> ::
        IsRun(hasher, clock, tpm, ledgers, steps) && SavedBy(steps) == es ==>
          Verifies(hasher, verifier, ledgers[|steps|].repo)
  {
    if KeysAscend(clock, es) {
      forall ledgers: seq<Ledger>, steps: seq<Step> | IsRun(hasher, clock, tpm, ledgers, steps) && SavedBy(steps) == es
        ensures Verifies(hasher, verifier, ledgers[|steps|].repo)
      {
        assert steps[..|steps|] == steps;
        LocalLedgersVerify(hasher, clock, tpm, verifier, ledgers, steps, |steps|);
      }
    } else {
      var ledgers, steps := SaveRun(hasher, clock, tpm, es);
      OrderExactly(clock, hasher, verifier, es);
    }
  }

  function Stamped(id: string, prevHash: string, timestamp: string): AuditEvent {
    AuditEvent(id, timestamp, "INFO", Null, Null, "", Null, Null, Null, id, prevHash, None)
  }

  /** Callers may stamp their events: two saved with the stamps 5 and 1 are rejected as soon as they are stored. */
  lemma CallerStampsBreak(tpm: Option<Tpm>, verifier: Option<Tpm>)
    returns (hasher: Hasher, clock: Clock, ledgers: seq<Ledger>, steps: seq<Step>)
    ensures IsRun(hasher, clock, tpm, ledgers, steps) && !Verifies(hasher, verifier, ledgers[|steps|].repo)
    ensures |SavedBy(steps)| == 2 && Time(clock, SavedBy(steps)[0]) == 5 && Time(clock, SavedBy(steps)[1]) == 1
  {
    hasher, clock := (e: AuditEvent) => Some(e.id), s => |s|;
    var a, b := Stamped("a", GENESIS, "55555"), Stamped("b", "a", "1");
    forall i | 0 <= i < 2 ensures ChainedAt(hasher, GENESIS, [a, b], i) {}
    ledgers, steps := SaveRun(hasher, clock, tpm, [a, b]);
    KeyLaws(clock);
    Timeline.FileSwapped(KeyOrder(clock), a, b);
    AcceptedForEveryLimit(hasher, verifier, [b, a]);
    assert !LinkedBack([b, a], 1);
  }

  /** Two events of one millisecond are rejected when their identifiers descend. */
  lemma IdentifiersBreak(hasher: Hasher, clock: Clock, verifier: Option<Tpm>, a: AuditEvent, b: AuditEvent)
    requires Chain(hasher, GENESIS, [a, b]) && Told([a, b]) && Time(clock, a) == Time(clock, b) && Below(b.id, a.id)
    ensures FiledAll(clock, [], [a, b]) == [b, a] && !Verifies(hasher, verifier, FiledAll(clock, [], [a, b]))
  {
    KeyLaws(clock);
    Timeline.FileSwapped(KeyOrder(clock), a, b);
    AcceptedForEveryLimit(hasher, verifier, [b, a]);
    assert ChainedAt(hasher, GENESIS, [a, b], 0) && ChainedAt(hasher, GENESIS, [a, b], 1) && [a, b][1].hash != GENESIS;
    assert !LinkedBack([b, a], 1);
  }
}
