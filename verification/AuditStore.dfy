/**
 The stored ledger, kept in the order of its keys, and what changes it besides the
 append path: retention, which truncates it behind a checkpoint, and synchronisation,
 which adopts remote events.
 */
module AuditStore {
  import opened Options
  import opened CanonicalJson
  import opened Audit
  import opened AuditVerifier
  import Timeline

  /** Milliseconds of a timestamp. */
  type Clock = string -> int

  /** Milliseconds of an event. */
  function Time(clock: Clock, e: AuditEvent): int { clock(e.timestamp) }

  predicate Expired(clock: Clock, cutoff: int, e: AuditEvent) { Time(clock, e) < cutoff }

  // ---- Keys

  /** The repository orders its entries by time, and within a millisecond by identifier. */
  predicate KeyBefore(clock: Clock, e: AuditEvent, f: AuditEvent) {
    Time(clock, e) < Time(clock, f) || (Time(clock, e) == Time(clock, f) && Below(e.id, f.id))
  }

  function KeyOrder(clock: Clock): (AuditEvent, AuditEvent) -> bool {
    (e: AuditEvent, f: AuditEvent) => KeyBefore(clock, e, f)
  }

  lemma KeyLaws(clock: Clock)
    ensures Timeline.IsOrder(KeyOrder(clock))
  {
    forall x: AuditEvent, y: AuditEvent, z: AuditEvent ensures Timeline.Lawful(KeyOrder(clock), x, y, z) {
      BelowTotal(x.id, y.id);
      BelowTotal(y.id, z.id);
      if Below(x.id, y.id) && Below(y.id, z.id) { BelowTransitive(x.id, y.id, z.id); }
      if Below(z.id, y.id) && Below(y.id, x.id) { BelowTransitive(z.id, y.id, x.id); }
      BelowTotal(x.id, z.id);
    }
  }

  ghost predicate KeysAscend(clock: Clock, es: seq<AuditEvent>) { Timeline.Ascending(KeyOrder(clock), es) }

  ghost predicate DistinctKeys(clock: Clock, es: seq<AuditEvent>) { Timeline.DistinctKeys(KeyOrder(clock), es) }

  /** One key is one time and one identifier. */
  lemma SameKeyMeans(clock: Clock, e: AuditEvent, f: AuditEvent)
    ensures Timeline.SameKey(KeyOrder(clock), e, f) <==> Time(clock, e) == Time(clock, f) && e.id == f.id
  {
    BelowTotal(e.id, f.id);
  }

  /** The ledger after a save, and after several. */
  function Filed(clock: Clock, repo: seq<AuditEvent>, e: AuditEvent): seq<AuditEvent> {
    Timeline.File(KeyOrder(clock), repo, e)
  }

  function FiledAll(clock: Clock, repo: seq<AuditEvent>, es: seq<AuditEvent>): seq<AuditEvent> {
    Timeline.FileAll(KeyOrder(clock), repo, es)
  }

  /**
   What `deleteBefore` leaves: it walks the keys from the oldest up to the cutoff, and commits its deletions
   in batches, so that a failure leaves it with the first n done.
   */
  function Survivors(clock: Clock, cutoff: int, repo: seq<AuditEvent>, n: nat): seq<AuditEvent> {
    if repo == [] || n == 0 || !Expired(clock, cutoff, repo[0]) then repo
    else Survivors(clock, cutoff, repo[1..], n - 1)
  }

  lemma {:induction false} SurvivorsSuffix(clock: Clock, cutoff: int, repo: seq<AuditEvent>, n: nat) returns (d: nat)
    ensures d <= |repo| && d <= n && Survivors(clock, cutoff, repo, n) == repo[d..]
    ensures forall i :: 0 <= i < d ==> Expired(clock, cutoff, repo[i])
    ensures d < |repo| && d < n ==> !Expired(clock, cutoff, repo[d])
  {
    if repo == [] || n == 0 || !Expired(clock, cutoff, repo[0]) {
      d := 0;
    } else {
      d := SurvivorsSuffix(clock, cutoff, repo[1..], n - 1);
      d := d + 1;
    }
  }

  /** In the order of the keys the expired events come first, so a finished deletion leaves none. */
  lemma {:induction false} NoneExpired(clock: Clock, cutoff: int, repo: seq<AuditEvent>)
    requires KeysAscend(clock, repo)
    ensures forall e :: e in Survivors(clock, cutoff, repo, |repo|) ==> !Expired(clock, cutoff, e)
  {
    if repo != [] {
      if Expired(clock, cutoff, repo[0]) {
        NoneExpired(clock, cutoff, repo[1..]);
      } else {
        forall e | e in repo ensures !Expired(clock, cutoff, e) {
          var i :| 0 <= i < |repo| && repo[i] == e;
          if i > 0 { assert KeyOrder(clock)(repo[0], repo[i]); }
        }
      }
    }
  }

  lemma FiledKeeps(clock: Clock, repo: seq<AuditEvent>, e: AuditEvent)
    ensures KeysAscend(clock, repo) ==> KeysAscend(clock, Filed(clock, repo, e))
  {
    KeyLaws(clock);
    if KeysAscend(clock, repo) { Timeline.FileAscending(KeyOrder(clock), repo, e); }
  }

  lemma SurvivorsKeep(clock: Clock, cutoff: int, repo: seq<AuditEvent>, n: nat)
    ensures KeysAscend(clock, repo) ==> KeysAscend(clock, Survivors(clock, cutoff, repo, n))
    ensures KeysAscend(clock, repo) && n == |repo| ==>
      forall e :: e in Survivors(clock, cutoff, repo, n) ==> !Expired(clock, cutoff, e)
  {
    var d := SurvivorsSuffix(clock, cutoff, repo, n);
    if KeysAscend(clock, repo) { NoneExpired(clock, cutoff, repo); }
  }

  /** A finished deletion leaves exactly the events that are not expired; a stopped one leaves at least those. */
  lemma SurvivorsExactly(clock: Clock, cutoff: int, repo: seq<AuditEvent>, n: nat, e: AuditEvent)
    requires KeysAscend(clock, repo)
    ensures e in Survivors(clock, cutoff, repo, |repo|) <==> e in repo && !Expired(clock, cutoff, e)
    ensures e in repo && !Expired(clock, cutoff, e) ==> e in Survivors(clock, cutoff, repo, n)
  {
    var d := SurvivorsSuffix(clock, cutoff, repo, n);
    var all := SurvivorsSuffix(clock, cutoff, repo, |repo|);
    NoneExpired(clock, cutoff, repo);
    if e in repo && !Expired(clock, cutoff, e) {
      var i :| 0 <= i < |repo| && repo[i] == e;
      assert repo[d..][i - d] == e && repo[all..][i - all] == e;
    }
  }

  // ---- Retention

  function BoundaryData(boundary: AuditEvent): Json {
    Object(["purgedEventsCutoff", "boundaryHash"], [Text(boundary.timestamp), Text(boundary.hash)])
  }

  /** The checkpoint that stands for everything up to the boundary event. */
  function Checkpoint(tpm: Option<Tpm>, id: string, now: string, hash: string, boundary: AuditEvent): AuditEvent {
    AuditEvent(id, now, CHECKPOINT, Text("info"), Text("AUDIT:RETENTION"),
               "Chain Truncated. Genesis state summarized at " + boundary.timestamp, Undefined,
               BoundaryData(boundary), Undefined, hash, TRUNCATED,
               if tpm.Some? then Some(tpm.value.sign(hash)) else None)
  }

  /** A checkpoint is accepted with the module that signed it, and without any. */
  lemma CheckpointAccepted(hasher: Hasher, tpm: Option<Tpm>, id: string, now: string, hash: string,
                           boundary: AuditEvent)
    requires tpm.Some? ==> Sound(tpm.value)
    ensures EventOk(hasher, tpm, Checkpoint(tpm, id, now, hash, boundary))
    ensures EventOk(hasher, None, Checkpoint(tpm, id, now, hash, boundary))
  {}

  /** What a purge stores: a truncated checkpoint of that moment, which names its boundary. */
  lemma CheckpointTruncates(tpm: Option<Tpm>, id: string, now: string, hash: string, boundary: AuditEvent)
    ensures var c := Checkpoint(tpm, id, now, hash, boundary);
      && c.id == id && c.timestamp == now && c.hash == hash && c.kind == CHECKPOINT && c.prevHash == TRUNCATED
      && c.severity == Text("info") && c.caller == Text("AUDIT:RETENTION")
      && c.hwSignature == (if tpm.Some? then Some(tpm.value.sign(hash)) else None)
      && c.data.Object? && |c.data.keys| == |c.data.vals|
      && Holds(c.data, "purgedEventsCutoff", Text(boundary.timestamp))
      && Holds(c.data, "boundaryHash", Text(boundary.hash))
  {
    var v := BoundaryData(boundary);
    assert v.keys[0] == "purgedEventsCutoff" && v.keys[1] == "boundaryHash" && v.keys[0] != v.keys[1];
    assert IndexOf(v.keys, v.keys[0]) == 0 && IndexOf(v.keys, v.keys[1]) == 1;
  }

  /** After a finished purge the ledger holds the checkpoint and what is not expired, except under its key. */
  lemma PurgeLeaves(clock: Clock, cutoff: int, repo: seq<AuditEvent>, c: AuditEvent, fault: PurgeFault, e: AuditEvent)
    requires KeysAscend(clock, repo) && fault != BeforeSave
    ensures var kept := e == c || (e in repo && !(Time(clock, e) == Time(clock, c) && e.id == c.id));
      && (fault == NoFault ==>
          (e in AfterPurge(clock, cutoff, repo, c, fault) <==> !Expired(clock, cutoff, e) && kept))
      && (!Expired(clock, cutoff, e) && kept ==> e in AfterPurge(clock, cutoff, repo, c, fault))
  {
    var filed := Filed(clock, repo, c);
    FiledKeeps(clock, repo, c);
    KeyLaws(clock);
    Timeline.FileMembers(KeyOrder(clock), repo, c, e);
    SameKeyMeans(clock, e, c);
    SurvivorsExactly(clock, cutoff, filed, if fault.DuringDelete? then fault.done else |filed|, e);
  }

  /** Where a purge may fail: hashing, signing or saving the checkpoint, or the deletion, with some of it done. */
  datatype PurgeFault = NoFault | BeforeSave | DuringDelete(done: nat)

  class Store {
    const clock: Clock
    const tpm: Option<Tpm>
    var repo: seq<AuditEvent>
    var lastHash: string

    constructor (clock: Clock, tpm: Option<Tpm>)
      ensures repo == [] && lastHash == GENESIS && this.clock == clock && this.tpm == tpm
    {
      this.clock := clock;
      this.tpm := tpm;
      repo := [];
      lastHash := GENESIS;
    }

    /** The forward scan, over at most 10000 events, for the last of the leading expired ones. */
    method FindBoundary(cutoff: int) returns (boundary: Option<AuditEvent>)
      ensures boundary.Some? <==> repo != [] && Expired(clock, cutoff, repo[0])
      ensures boundary.Some? ==> exists k :: 0 <= k < |repo| && repo[k] == boundary.value &&
                                             IsBoundary(clock, cutoff, repo, k)
    {
      boundary := None;
      ghost var k := -1;
      for i := 0 to if |repo| < SCAN then |repo| else SCAN
        invariant k == i - 1
        invariant boundary == if k < 0 then None else Some(repo[k])
        invariant forall j :: 0 <= j <= k ==> Expired(clock, cutoff, repo[j])
      {
        if !Expired(clock, cutoff, repo[i]) { break; }
        boundary := Some(repo[i]);
        k := i;
      }
      assert k >= 0 ==> IsBoundary(clock, cutoff, repo, k);
    }

    /** Retention: a checkpoint is saved, then everything before the cutoff is deleted; the chain head stays. */
    method PurgeExpired(cutoff: int, id: string, now: string, hash: string, fault: PurgeFault)
      returns (boundary: Option<AuditEvent>)
      modifies this`repo
      ensures boundary.Some? <==> old(repo) != [] && Expired(clock, cutoff, old(repo)[0])
      ensures boundary.Some? ==> exists k :: 0 <= k < |old(repo)| && old(repo)[k] == boundary.value &&
                                             IsBoundary(clock, cutoff, old(repo), k)
      ensures boundary.None? ==> repo == old(repo)
      ensures boundary.Some? ==>
        repo == AfterPurge(clock, cutoff, old(repo), Checkpoint(tpm, id, now, hash, boundary.value), fault)
      ensures KeysAscend(clock, old(repo)) ==> KeysAscend(clock, repo)
      ensures KeysAscend(clock, old(repo)) && boundary.Some? && fault.NoFault? ==>
        forall e :: e in repo ==> !Expired(clock, cutoff, e)
    {
      boundary := FindBoundary(cutoff);
      if boundary.None? || fault == BeforeSave { return; }
      var checkpoint := Checkpoint(tpm, id, now, hash, boundary.value);
      repo := Filed(clock, repo, checkpoint);
      FiledKeeps(clock, old(repo), checkpoint);
      var n := if fault.DuringDelete? then fault.done else |repo|;
      SurvivorsKeep(clock, cutoff, repo, n);
      repo := Survivors(clock, cutoff, repo, n);
    }

    /**
     Synchronisation: each event is adopted or skipped; an exception of the serializer ends the batch. Event i
     meets the head heads[i] and the ledger repos[i], and leaves the next ones.
     */
    method SyncEvents(hasher: Hasher, events: seq<AuditEvent>)
      returns (ghost heads: seq<string>, ghost repos: seq<seq<AuditEvent>>)
      modifies this`repo, this`lastHash
      ensures var adopted := Adopted(hasher, tpm, old(lastHash), events);
        repo == FiledAll(clock, old(repo), adopted) && lastHash == ChainEnd(old(lastHash), adopted)
      ensures KeysAscend(clock, old(repo)) ==> KeysAscend(clock, repo)
      ensures 0 < |heads| == |repos| <= |events| + 1 && heads[0] == old(lastHash) && repos[0] == old(repo)
      ensures forall i :: 0 <= i < |heads| - 1 ==>
        && (events[i].hash == heads[i] || hasher(events[i]).Some?)
        && if Adoptable(hasher, tpm, heads[i], events[i])
           then heads[i + 1] == events[i].hash && repos[i + 1] == Filed(clock, repos[i], events[i])
           else heads[i + 1] == heads[i] && repos[i + 1] == repos[i]
      ensures |heads| <= |events| ==>
        events[|heads| - 1].hash != heads[|heads| - 1] && hasher(events[|heads| - 1]).None?
      ensures lastHash == heads[|heads| - 1] && repo == repos[|repos| - 1]
    {
      heads, repos := [lastHash], [repo];
      for i := 0 to |events|
        invariant |heads| == i + 1 && IsTrace(clock, hasher, tpm, events, heads, repos)
        invariant heads[0] == old(lastHash) && repos[0] == old(repo) && heads[i] == lastHash && repos[i] == repo
      {
        var event := events[i];
        var adopt := Consider(hasher, event);
        if adopt.None? { break; }
        if adopt.value {
          repo := Filed(clock, repo, event);
          lastHash := event.hash;
        }
        TraceNext(clock, hasher, tpm, events, heads, repos, lastHash, repo);
        heads, repos := heads + [lastHash], repos + [repo];
      }
      TraceEnds(clock, hasher, tpm, events, heads, repos);
      TraceMeans(clock, hasher, tpm, events, heads, repos);
    }

    /** The checks on one event: whether it is adopted, or None when the serializer throws. */
    method Consider(hasher: Hasher, event: AuditEvent) returns (adopt: Option<bool>)
      ensures adopt.None? <==> event.hash != lastHash && hasher(event).None?
      ensures adopt.Some? ==> adopt.value == Adoptable(hasher, tpm, lastHash, event)
      ensures adopt == Some(true) <==>
        && event.hash != lastHash && hasher(event) == Some(event.hash)
        && ((event.prevHash == lastHash && event.prevHash != TRUNCATED) ||
            (event.prevHash == TRUNCATED && event.kind == CHECKPOINT && tpm.Some? && event.hwSignature.Some? &&
             event.hwSignature.value != "" && tpm.value.verify(event.hash, event.hwSignature.value)))
    {
      if event.hash == lastHash { return Some(false); }
      var expected := hasher(event);
      if expected.None? { return None; }
      if event.hash != expected.value { return Some(false); }
      if event.prevHash == TRUNCATED && event.kind != CHECKPOINT { return Some(false); }
      if event.prevHash == TRUNCATED {
        if tpm.None? { return Some(false); }
        if !Signed(event) { return Some(false); }
        if !tpm.value.verify(event.hash, event.hwSignature.value) { return Some(false); }
      }
      if event.prevHash != lastHash && event.prevHash != TRUNCATED { return Some(false); }
      return Some(true);
    }
  }

  const SCAN: nat := 10000

  ghost predicate IsBoundary(clock: Clock, cutoff: int, repo: seq<AuditEvent>, k: nat)
    requires k < |repo|
  {
    && k < SCAN && (forall j :: 0 <= j <= k ==> Expired(clock, cutoff, repo[j]))
    && (k + 1 < |repo| && k + 1 < SCAN ==> !Expired(clock, cutoff, repo[k + 1]))
  }

  function AfterPurge(clock: Clock, cutoff: int, repo: seq<AuditEvent>, checkpoint: AuditEvent, fault: PurgeFault)
    : seq<AuditEvent>
  {
    match fault
    case BeforeSave => repo
    case DuringDelete(n) => Survivors(clock, cutoff, Filed(clock, repo, checkpoint), n)
    case NoFault => Survivors(clock, cutoff, Filed(clock, repo, checkpoint), |Filed(clock, repo, checkpoint)|)
  }

  /** The stored events and the chain head. */
  datatype Ledger = Ledger(repo: seq<AuditEvent>, lastHash: string)

  // ---- Synchronised ledgers

  /** A truncation is only adopted as a checkpoint whose signature the module verified. */
  predicate VerifiedTruncation(tpm: Option<Tpm>, e: AuditEvent) {
    && e.prevHash == TRUNCATED && e.kind == CHECKPOINT
    && tpm.Some? && Signed(e) && tpm.value.verify(e.hash, e.hwSignature.value)
  }

  predicate Adoptable(hasher: Hasher, tpm: Option<Tpm>, head: string, e: AuditEvent) {
    && e.hash != head && HashOk(hasher, e)
    && (if e.prevHash == TRUNCATED then VerifiedTruncation(tpm, e) else e.prevHash == head)
  }

  /** The events that a batch adds, in the order of their adoption; the head decides, not what is stored. */
  function Adopted(hasher: Hasher, tpm: Option<Tpm>, head: string, events: seq<AuditEvent>): seq<AuditEvent>
    decreases events
  {
    if events == [] || Throws(hasher, head, events[0]) then []
    else if Adoptable(hasher, tpm, head, events[0]) then
      [events[0]] + Adopted(hasher, tpm, events[0].hash, events[1..])
    else Adopted(hasher, tpm, head, events[1..])
  }

  predicate Throws(hasher: Hasher, head: string, e: AuditEvent) { e.hash != head && hasher(e).None? }

  /** What one event makes of the head and the ledger. */
  ghost predicate SyncStep(clock: Clock, hasher: Hasher, tpm: Option<Tpm>, e: AuditEvent,
                           head: string, repo: seq<AuditEvent>, head': string, repo': seq<AuditEvent>)
  {
    && !Throws(hasher, head, e)
    && if Adoptable(hasher, tpm, head, e) then head' == e.hash && repo' == Filed(clock, repo, e)
       else head' == head && repo' == repo
  }

  /** The heads and ledgers between the first events of a batch. */
  ghost predicate IsTrace(clock: Clock, hasher: Hasher, tpm: Option<Tpm>, events: seq<AuditEvent>,
                          heads: seq<string>, repos: seq<seq<AuditEvent>>)
  {
    && 0 < |heads| == |repos| <= |events| + 1
    && forall i :: 0 <= i < |heads| - 1 ==>
         SyncStep(clock, hasher, tpm, events[i], heads[i], repos[i], heads[i + 1], repos[i + 1])
  }

  lemma TraceNext(clock: Clock, hasher: Hasher, tpm: Option<Tpm>, events: seq<AuditEvent>,
                  heads: seq<string>, repos: seq<seq<AuditEvent>>, head: string, repo: seq<AuditEvent>)
    requires IsTrace(clock, hasher, tpm, events, heads, repos) && |heads| <= |events|
    requires var n := |heads| - 1; SyncStep(clock, hasher, tpm, events[n], heads[n], repos[n], head, repo)
    ensures IsTrace(clock, hasher, tpm, events, heads + [head], repos + [repo])
  {
    var hs, rs := heads + [head], repos + [repo];
    forall i | 0 <= i < |hs| - 1
      ensures SyncStep(clock, hasher, tpm, events[i], hs[i], rs[i], hs[i + 1], rs[i + 1])
    {
      if i < |heads| - 1 {
        assert SyncStep(clock, hasher, tpm, events[i], heads[i], repos[i], heads[i + 1], repos[i + 1]);
      }
    }
  }

  /** A trace that ends with the batch or at an exception ends with what the batch adds. */
  lemma {:induction false} TraceEnds(clock: Clock, hasher: Hasher, tpm: Option<Tpm>, events: seq<AuditEvent>,
                                     heads: seq<string>, repos: seq<seq<AuditEvent>>)
    requires IsTrace(clock, hasher, tpm, events, heads, repos)
    requires |heads| <= |events| ==> Throws(hasher, heads[|heads| - 1], events[|heads| - 1])
    ensures var adopted := Adopted(hasher, tpm, heads[0], events);
      && repos[|repos| - 1] == FiledAll(clock, repos[0], adopted)
      && heads[|heads| - 1] == ChainEnd(heads[0], adopted)
    ensures KeysAscend(clock, repos[0]) ==> KeysAscend(clock, repos[|repos| - 1])
    decreases |events|
  {
    if |heads| > 1 {
      var e, rest, hs, rs := events[0], events[1..], heads[1..], repos[1..];
      assert SyncStep(clock, hasher, tpm, e, heads[0], repos[0], heads[1], repos[1]);
      TailTrace(clock, hasher, tpm, events, heads, repos);
      TraceEnds(clock, hasher, tpm, rest, hs, rs);
      FiledKeeps(clock, repos[0], e);
      if Adoptable(hasher, tpm, heads[0], e) {
        Timeline.FileAllFirst(KeyOrder(clock), repos[0], e, Adopted(hasher, tpm, e.hash, rest));
      }
    }
  }

  lemma TraceMeans(clock: Clock, hasher: Hasher, tpm: Option<Tpm>, events: seq<AuditEvent>,
                   heads: seq<string>, repos: seq<seq<AuditEvent>>)
    requires IsTrace(clock, hasher, tpm, events, heads, repos)
    ensures forall i :: 0 <= i < |heads| - 1 ==>
      && (events[i].hash == heads[i] || hasher(events[i]).Some?)
      && if Adoptable(hasher, tpm, heads[i], events[i])
         then heads[i + 1] == events[i].hash && repos[i + 1] == Filed(clock, repos[i], events[i])
         else heads[i + 1] == heads[i] && repos[i + 1] == repos[i]
  {
    forall i | 0 <= i < |heads| - 1
      ensures
        && (events[i].hash == heads[i] || hasher(events[i]).Some?)
        && if Adoptable(hasher, tpm, heads[i], events[i])
           then heads[i + 1] == events[i].hash && repos[i + 1] == Filed(clock, repos[i], events[i])
           else heads[i + 1] == heads[i] && repos[i + 1] == repos[i]
    {
      assert SyncStep(clock, hasher, tpm, events[i], heads[i], repos[i], heads[i + 1], repos[i + 1]);
    }
  }

  lemma TailTrace(clock: Clock, hasher: Hasher, tpm: Option<Tpm>, events: seq<AuditEvent>,
                  heads: seq<string>, repos: seq<seq<AuditEvent>>)
    requires IsTrace(clock, hasher, tpm, events, heads, repos) && |heads| > 1
    ensures IsTrace(clock, hasher, tpm, events[1..], heads[1..], repos[1..])
  {
    var rest, hs, rs := events[1..], heads[1..], repos[1..];
    forall i | 0 <= i < |hs| - 1
      ensures SyncStep(clock, hasher, tpm, rest[i], hs[i], rs[i], hs[i + 1], rs[i + 1])
    {
      var j := i + 1;
      assert SyncStep(clock, hasher, tpm, events[j], heads[j], repos[j], heads[j + 1], repos[j + 1]);
    }
  }

  lemma AdoptFirst(hasher: Hasher, tpm: Option<Tpm>, head: string, events: seq<AuditEvent>)
    requires events != [] && Adoptable(hasher, tpm, head, events[0])
    ensures Adopted(hasher, tpm, head, events) == [events[0]] + Adopted(hasher, tpm, events[0].hash, events[1..])
  {}

  /** The event has its recomputed hash and is linked to the head of its time, or is a verified truncation. */
  ghost predicate AdoptedAt(hasher: Hasher, tpm: Option<Tpm>, repo: seq<AuditEvent>, i: nat)
    requires i < |repo|
  {
    && HashOk(hasher, repo[i])
    && (if repo[i].prevHash == TRUNCATED then VerifiedTruncation(tpm, repo[i])
        else repo[i].prevHash == HeadBefore(GENESIS, repo, i))
  }

  ghost predicate AdoptedOk(hasher: Hasher, tpm: Option<Tpm>, adopted: seq<AuditEvent>) {
    forall i :: 0 <= i < |adopted| ==> AdoptedAt(hasher, tpm, adopted, i)
  }

  lemma AdoptKeeps(hasher: Hasher, tpm: Option<Tpm>, adopted: seq<AuditEvent>, e: AuditEvent)
    requires AdoptedOk(hasher, tpm, adopted) && Adoptable(hasher, tpm, ChainEnd(GENESIS, adopted), e)
    ensures AdoptedOk(hasher, tpm, adopted + [e])
  {
    var r := adopted + [e];
    forall i | 0 <= i < |r| ensures AdoptedAt(hasher, tpm, r, i) {
      if i < |adopted| { assert AdoptedAt(hasher, tpm, adopted, i); }
    }
  }

  lemma {:induction false} SyncKeeps(hasher: Hasher, tpm: Option<Tpm>, before: seq<AuditEvent>, events: seq<AuditEvent>)
    requires AdoptedOk(hasher, tpm, before)
    ensures AdoptedOk(hasher, tpm, before + Adopted(hasher, tpm, ChainEnd(GENESIS, before), events))
    decreases events
  {
    var head := ChainEnd(GENESIS, before);
    if events == [] || Throws(hasher, head, events[0]) {
      assert before + [] == before;
    } else if Adoptable(hasher, tpm, head, events[0]) {
      AdoptKeeps(hasher, tpm, before, events[0]);
      SyncKeeps(hasher, tpm, before + [events[0]], events[1..]);
      var rest := Adopted(hasher, tpm, events[0].hash, events[1..]);
      assert before + [events[0]] + rest == before + ([events[0]] + rest);
    } else {
      SyncKeeps(hasher, tpm, before, events[1..]);
    }
  }

  /** All that any number of batches add, from an empty ledger. */
  function AdoptedAll(hasher: Hasher, tpm: Option<Tpm>, batches: seq<seq<AuditEvent>>): seq<AuditEvent> {
    if batches == [] then []
    else
      var n := |batches| - 1;
      var before := AdoptedAll(hasher, tpm, batches[..n]);
      before + Adopted(hasher, tpm, ChainEnd(GENESIS, before), batches[n])
  }

  /** What is then stored. */
  function StoredAll(clock: Clock, hasher: Hasher, tpm: Option<Tpm>, batches: seq<seq<AuditEvent>>): seq<AuditEvent> {
    FiledAll(clock, [], AdoptedAll(hasher, tpm, batches))
  }

  /** That is what one call after the other makes of the ledger. */
  lemma StoredNext(clock: Clock, hasher: Hasher, tpm: Option<Tpm>, batches: seq<seq<AuditEvent>>,
                   batch: seq<AuditEvent>)
    ensures var head := ChainEnd(GENESIS, AdoptedAll(hasher, tpm, batches));
      StoredAll(clock, hasher, tpm, batches + [batch]) ==
        FiledAll(clock, StoredAll(clock, hasher, tpm, batches), Adopted(hasher, tpm, head, batch))
  {
    var before := AdoptedAll(hasher, tpm, batches);
    assert (batches + [batch])[..|batches|] == batches;
    Timeline.FileAllConcat(KeyOrder(clock), [], before, Adopted(hasher, tpm, ChainEnd(GENESIS, before), batch));
  }

  lemma {:induction false} SyncedAllOk(hasher: Hasher, tpm: Option<Tpm>, batches: seq<seq<AuditEvent>>)
    ensures AdoptedOk(hasher, tpm, AdoptedAll(hasher, tpm, batches))
  {
    if batches != [] {
      SyncedAllOk(hasher, tpm, batches[..|batches| - 1]);
      SyncKeeps(hasher, tpm, AdoptedAll(hasher, tpm, batches[..|batches| - 1]), batches[|batches| - 1]);
    }
  }

  /** Checkpoints that came in as ordinary links must be signed for verification to accept them. */
  predicate LinkedCheckpointSigned(tpm: Option<Tpm>, e: AuditEvent) {
    e.kind == CHECKPOINT && e.prevHash != TRUNCATED ==>
      tpm.Some? && Signed(e) && tpm.value.verify(e.hash, e.hwSignature.value)
  }

  ghost predicate LinkedCheckpointsSigned(tpm: Option<Tpm>, repo: seq<AuditEvent>) {
    forall i :: 0 <= i < |repo| ==> LinkedCheckpointSigned(tpm, repo[i])
  }

  ghost predicate Verifies(hasher: Hasher, tpm: Option<Tpm>, repo: seq<AuditEvent>) {
    forall limit: nat :: Accepted(hasher, tpm, Stream(repo, limit))
  }

  // ---- Chains under the order of the keys

  /** Hashes that tell the events apart, and from the start of the chain and the mark of a truncation. */
  ghost predicate Told(es: seq<AuditEvent>) {
    && (forall i, j :: 0 <= i < j < |es| ==> es[i].hash != es[j].hash)
    && (forall i :: 0 <= i < |es| ==> es[i].hash != TRUNCATED && es[i].hash != GENESIS)
  }

  /** A stretch of a chain is in order. */
  lemma StretchOk(hasher: Hasher, tpm: Option<Tpm>, es: seq<AuditEvent>, lo: nat, hi: nat)
    requires Chain(hasher, GENESIS, es) && lo <= hi <= |es|
    ensures LedgerOk(hasher, tpm, es[lo..hi])
  {
    var r := es[lo..hi];
    forall i | 0 <= i < |r| ensures EventOk(hasher, tpm, r[i]) { assert ChainedAt(hasher, GENESIS, es, lo + i); }
    forall i | 0 < i < |r| ensures LinkedBack(r, i) { assert ChainedAt(hasher, GENESIS, es, lo + i); }
  }

  /** Two neighbours that link are neighbours in the chain. */
  lemma LinkedNeighbours(hasher: Hasher, es: seq<AuditEvent>, a: nat, b: nat)
    requires Chain(hasher, GENESIS, es) && Told(es) && a < |es| && b < |es| && LinkOk(es[b], es[a])
    ensures b == a + 1
  {
    assert ChainedAt(hasher, GENESIS, es, b) && ChainedAt(hasher, GENESIS, es, a);
  }

  /** Whatever is kept of a chain and in whatever order: it is in order exactly when it is a stretch of the chain. */
  lemma {:induction false} KeptInOrder(hasher: Hasher, tpm: Option<Tpm>, es: seq<AuditEvent>, p: seq<AuditEvent>)
    returns (d: nat)
    requires Chain(hasher, GENESIS, es) && Told(es) && LedgerOk(hasher, tpm, p)
    requires forall j :: 0 <= j < |p| ==> p[j] in es
    ensures d + |p| <= |es| && p == es[d..d + |p|]
  {
    if p == [] {
      d := 0;
    } else {
      var n := |p| - 1;
      var q := p[..n];
      forall i | 0 < i < n ensures LinkedBack(q, i) { assert LinkedBack(p, i); }
      d := KeptInOrder(hasher, tpm, es, q);
      var b :| 0 <= b < |es| && es[b] == p[n];
      if n == 0 {
        d := b;
      } else {
        assert LinkedBack(p, n) && p[n - 1] == q[n - 1] == es[d + n - 1];
        LinkedNeighbours(hasher, es, d + n - 1, b);
      }
    }
  }

  /** A chain that is saved is in order exactly when what is stored is an end piece of it. */
  lemma FiledExactly(clock: Clock, hasher: Hasher, tpm: Option<Tpm>, es: seq<AuditEvent>)
    requires Chain(hasher, GENESIS, es) && Told(es)
    ensures LedgerOk(hasher, tpm, FiledAll(clock, [], es)) <==>
      exists d :: 0 <= d <= |es| && FiledAll(clock, [], es) == es[d..]
  {
    var p := FiledAll(clock, [], es);
    KeyLaws(clock);
    forall x | x in p ensures x in es { Timeline.FileAllAmong(KeyOrder(clock), es, x); }
    if LedgerOk(hasher, tpm, p) {
      var d := KeptInOrder(hasher, tpm, es, p);
      if es == [] {
        assert p == es[0..];
      } else {
        LastKept(clock, es, p, d);
        assert p == es[d..];
      }
    }
    if d :| 0 <= d <= |es| && p == es[d..] {
      assert es[d..|es|] == es[d..];
      StretchOk(hasher, tpm, es, d, |es|);
    }
  }

  lemma LastKept(clock: Clock, es: seq<AuditEvent>, p: seq<AuditEvent>, d: nat)
    requires Told(es) && es != [] && p == FiledAll(clock, [], es) && d + |p| <= |es| && p == es[d..d + |p|]
    ensures d + |p| == |es|
  {
    var n := |es| - 1;
    KeyLaws(clock);
    Timeline.FileAllAmong(KeyOrder(clock), es, es[n]);
    var j :| 0 <= j < |p| && p[j] == es[n];
    assert es[d + j] == es[n];
  }

  /** Under distinct keys that means: exactly when the keys ascend along the chain. */
  lemma OrderExactly(clock: Clock, hasher: Hasher, tpm: Option<Tpm>, es: seq<AuditEvent>)
    requires Chain(hasher, GENESIS, es) && Told(es) && DistinctKeys(clock, es)
    ensures Verifies(hasher, tpm, FiledAll(clock, [], es)) <==> KeysAscend(clock, es)
  {
    var p := FiledAll(clock, [], es);
    AcceptedForEveryLimit(hasher, tpm, p);
    FiledExactly(clock, hasher, tpm, es);
    KeyLaws(clock);
    if KeysAscend(clock, es) {
      Timeline.FileInOrder(KeyOrder(clock), es);
      assert p == es[0..];
    }
    if d :| 0 <= d <= |es| && p == es[d..] {
      Timeline.FileAllAscending(KeyOrder(clock), [], es);
      FirstKept(clock, es, d);
    }
  }

  lemma FirstKept(clock: Clock, es: seq<AuditEvent>, d: nat)
    requires Told(es) && DistinctKeys(clock, es) && d <= |es| && FiledAll(clock, [], es) == es[d..]
    ensures es == es[d..]
  {
    if es != [] {
      KeyLaws(clock);
      Timeline.FileAllKeeps(KeyOrder(clock), es, 0);
      var j :| 0 <= j < |es[d..]| && es[d..][j] == es[0];
      assert es[d + j] == es[0];
    }
  }

  // ---- What synchronisation stores

  lemma AdoptedEventOk(hasher: Hasher, tpm: Option<Tpm>, adopted: seq<AuditEvent>, e: AuditEvent)
    requires AdoptedOk(hasher, tpm, adopted) && e in adopted
    ensures EventOk(hasher, tpm, e) <==> LinkedCheckpointSigned(tpm, e)
  {
    var i :| 0 <= i < |adopted| && adopted[i] == e;
    assert AdoptedAt(hasher, tpm, adopted, i);
  }

  /** One event was adopted right after the other. */
  ghost predicate AdoptedAfter(adopted: seq<AuditEvent>, x: AuditEvent, y: AuditEvent) {
    exists k :: 0 < k < |adopted| && IsPair(adopted, k, x, y)
  }

  ghost predicate IsPair(adopted: seq<AuditEvent>, k: nat, x: AuditEvent, y: AuditEvent)
    requires 0 < k < |adopted|
  {
    adopted[k - 1] == x && adopted[k] == y
  }

  /** What may be stored next to an event: anything after a checkpoint, a truncation, or what was adopted after it. */
  ghost predicate MayFollow(adopted: seq<AuditEvent>, x: AuditEvent, y: AuditEvent) {
    x.kind == CHECKPOINT || y.prevHash == TRUNCATED || AdoptedAfter(adopted, x, y)
  }

  /** Equal hashes are those of one event, and none is the start of the chain. */
  ghost predicate HashesTell(es: seq<AuditEvent>) {
    && (forall i, j :: 0 <= i < |es| && 0 <= j < |es| && es[i].hash == es[j].hash ==> es[i] == es[j])
    && (forall i :: 0 <= i < |es| ==> es[i].hash != GENESIS)
  }

  lemma MayFollowMeans(hasher: Hasher, tpm: Option<Tpm>, adopted: seq<AuditEvent>, x: AuditEvent, y: AuditEvent)
    requires AdoptedOk(hasher, tpm, adopted) && HashesTell(adopted) && x in adopted && y in adopted
    ensures LinkOk(y, x) <==> MayFollow(adopted, x, y)
  {
    var m :| 0 <= m < |adopted| && adopted[m] == y;
    assert AdoptedAt(hasher, tpm, adopted, m);
    if y.prevHash == x.hash && y.prevHash != TRUNCATED {
      assert m > 0 && IsPair(adopted, m, x, y);
    }
    if AdoptedAfter(adopted, x, y) {
      var k :| 0 < k < |adopted| && IsPair(adopted, k, x, y);
      assert AdoptedAt(hasher, tpm, adopted, k);
    }
  }

  /**
   A synchronised ledger passes verification for every limit exactly when each stored checkpoint that came
   through an ordinary link is signed, and in the order of the keys each stored event may follow the one before.
   */
  lemma SyncedLedgersVerify(clock: Clock, hasher: Hasher, tpm: Option<Tpm>, batches: seq<seq<AuditEvent>>)
    requires HashesTell(AdoptedAll(hasher, tpm, batches))
    ensures var adopted, repo := AdoptedAll(hasher, tpm, batches), StoredAll(clock, hasher, tpm, batches);
      Verifies(hasher, tpm, repo) <==>
        LinkedCheckpointsSigned(tpm, repo) && forall i :: 0 < i < |repo| ==> MayFollow(adopted, repo[i - 1], repo[i])
  {
    var adopted, repo := AdoptedAll(hasher, tpm, batches), StoredAll(clock, hasher, tpm, batches);
    SyncedAllOk(hasher, tpm, batches);
    AcceptedForEveryLimit(hasher, tpm, repo);
    KeyLaws(clock);
    forall i | 0 <= i < |repo|
      ensures repo[i] in adopted && (EventOk(hasher, tpm, repo[i]) <==> LinkedCheckpointSigned(tpm, repo[i]))
    {
      Timeline.FileAllAmong(KeyOrder(clock), adopted, repo[i]);
      AdoptedEventOk(hasher, tpm, adopted, repo[i]);
    }
    forall i | 0 < i < |repo| ensures LinkedBack(repo, i) <==> MayFollow(adopted, repo[i - 1], repo[i]) {
      MayFollowMeans(hasher, tpm, adopted, repo[i - 1], repo[i]);
    }
  }

  /** Adopted in the order of their keys, the events are stored as adopted, and only the signatures count. */
  lemma SyncedInOrder(clock: Clock, hasher: Hasher, tpm: Option<Tpm>, batches: seq<seq<AuditEvent>>)
    requires KeysAscend(clock, AdoptedAll(hasher, tpm, batches))
    ensures StoredAll(clock, hasher, tpm, batches) == AdoptedAll(hasher, tpm, batches)
    ensures Verifies(hasher, tpm, StoredAll(clock, hasher, tpm, batches)) <==>
      LinkedCheckpointsSigned(tpm, AdoptedAll(hasher, tpm, batches))
  {
    var adopted := AdoptedAll(hasher, tpm, batches);
    Timeline.FileInOrder(KeyOrder(clock), adopted);
    SyncedAllOk(hasher, tpm, batches);
    AcceptedForEveryLimit(hasher, tpm, adopted);
    forall i | 0 <= i < |adopted|
      ensures EventOk(hasher, tpm, adopted[i]) <==> LinkedCheckpointSigned(tpm, adopted[i])
    {
      AdoptedEventOk(hasher, tpm, adopted, adopted[i]);
    }
    forall i | 0 < i < |adopted| ensures LinkedBack(adopted, i) { assert AdoptedAt(hasher, tpm, adopted, i); }
  }

  /** Without checkpoints the order of the keys is the exact condition. */
  lemma PlainSyncExactly(clock: Clock, hasher: Hasher, tpm: Option<Tpm>, batches: seq<seq<AuditEvent>>)
    requires var adopted := AdoptedAll(hasher, tpm, batches);
      && Told(adopted) && DistinctKeys(clock, adopted)
      && forall i :: 0 <= i < |adopted| ==> adopted[i].kind != CHECKPOINT
    ensures Verifies(hasher, tpm, StoredAll(clock, hasher, tpm, batches)) <==>
      KeysAscend(clock, AdoptedAll(hasher, tpm, batches))
  {
    var adopted := AdoptedAll(hasher, tpm, batches);
    SyncedAllOk(hasher, tpm, batches);
    forall i | 0 <= i < |adopted| ensures ChainedAt(hasher, GENESIS, adopted, i) {
      assert AdoptedAt(hasher, tpm, adopted, i);
    }
    OrderExactly(clock, hasher, tpm, adopted);
  }

  // ---- What comes in

  function Flat(batches: seq<seq<AuditEvent>>): seq<AuditEvent> {
    if batches == [] then [] else Flat(batches[..|batches| - 1]) + batches[|batches| - 1]
  }

  /** The adopted events are among the incoming ones, and in their order. */
  lemma {:induction false} AdoptedInOrder(clock: Clock, hasher: Hasher, tpm: Option<Tpm>, head: string,
                                          seen: seq<AuditEvent>, kept: seq<AuditEvent>, events: seq<AuditEvent>)
    requires KeysAscend(clock, seen + events) && KeysAscend(clock, kept) && forall x :: x in kept ==> x in seen
    ensures KeysAscend(clock, kept + Adopted(hasher, tpm, head, events))
    ensures forall x :: x in kept + Adopted(hasher, tpm, head, events) ==> x in seen + events
    decreases events
  {
    if events == [] || Throws(hasher, head, events[0]) {
      assert kept + [] == kept;
    } else {
      var e, rest := events[0], events[1..];
      assert seen + events == seen + [e] + rest;
      if Adoptable(hasher, tpm, head, e) {
        KeptNext(clock, seen, kept, e, rest);
        AdoptedInOrder(clock, hasher, tpm, e.hash, seen + [e], kept + [e], rest);
        assert kept + [e] + Adopted(hasher, tpm, e.hash, rest) == kept + ([e] + Adopted(hasher, tpm, e.hash, rest));
      } else {
        AdoptedInOrder(clock, hasher, tpm, head, seen + [e], kept, rest);
      }
    }
  }

  lemma KeptNext(clock: Clock, seen: seq<AuditEvent>, kept: seq<AuditEvent>, e: AuditEvent, rest: seq<AuditEvent>)
    requires KeysAscend(clock, seen + [e] + rest) && KeysAscend(clock, kept) && forall x :: x in kept ==> x in seen
    ensures KeysAscend(clock, kept + [e]) && forall x :: x in kept + [e] ==> x in seen + [e]
  {
    var all := seen + [e] + rest;
    forall i | 0 <= i < |kept| ensures KeyOrder(clock)(kept[i], e) {
      assert kept[i] in kept;
      var k :| 0 <= k < |seen| && seen[k] == kept[i];
      assert all[k] == kept[i] && all[|seen|] == e;
    }
  }

  lemma {:induction false} AllInOrder(clock: Clock, hasher: Hasher, tpm: Option<Tpm>, batches: seq<seq<AuditEvent>>,
                                      later: seq<AuditEvent>)
    requires KeysAscend(clock, Flat(batches) + later)
    ensures KeysAscend(clock, AdoptedAll(hasher, tpm, batches))
    ensures forall x :: x in AdoptedAll(hasher, tpm, batches) ==> x in Flat(batches)
  {
    if batches != [] {
      var n := |batches| - 1;
      var seen, before := Flat(batches[..n]), AdoptedAll(hasher, tpm, batches[..n]);
      assert Flat(batches) + later == seen + (batches[n] + later);
      AllInOrder(clock, hasher, tpm, batches[..n], batches[n] + later);
      assert forall i :: 0 <= i < |seen + batches[n]| ==> (seen + batches[n])[i] == (Flat(batches) + later)[i];
      AdoptedInOrder(clock, hasher, tpm, ChainEnd(GENESIS, before), seen, before, batches[n]);
    }
  }

  /** If what comes in is in the order of the keys and its linked checkpoints are signed, the ledger passes. */
  lemma SignedBatchesVerify(clock: Clock, hasher: Hasher, tpm: Option<Tpm>, batches: seq<seq<AuditEvent>>)
    requires KeysAscend(clock, Flat(batches)) && LinkedCheckpointsSigned(tpm, Flat(batches))
    ensures Verifies(hasher, tpm, StoredAll(clock, hasher, tpm, batches))
  {
    assert Flat(batches) + [] == Flat(batches);
    AllInOrder(clock, hasher, tpm, batches, []);
    SyncedInOrder(clock, hasher, tpm, batches);
    var adopted := AdoptedAll(hasher, tpm, batches);
    forall i | 0 <= i < |adopted| ensures LinkedCheckpointSigned(tpm, adopted[i]) {
      assert adopted[i] in Flat(batches);
    }
  }

  // ---- Catching up

  /** An event of a chain before the head or at it is skipped. */
  lemma KnownSkipped(hasher: Hasher, tpm: Option<Tpm>, es: seq<AuditEvent>, known: nat, i: nat)
    requires Chain(hasher, GENESIS, es) && Told(es) && i < known <= |es|
    ensures !Adoptable(hasher, tpm, HeadBefore(GENESIS, es, known), es[i])
    ensures hasher(es[i]).Some?
  {
    assert ChainedAt(hasher, GENESIS, es, i) && ChainedAt(hasher, GENESIS, es, known - 1);
    if i > 0 { assert ChainedAt(hasher, GENESIS, es, i - 1); }
  }

  /** An event of a chain right after the head is adopted. */
  lemma NextAdopted(hasher: Hasher, tpm: Option<Tpm>, es: seq<AuditEvent>, known: nat)
    requires Chain(hasher, GENESIS, es) && Told(es) && known < |es|
    ensures Adoptable(hasher, tpm, HeadBefore(GENESIS, es, known), es[known])
  {
    assert ChainedAt(hasher, GENESIS, es, known);
    if known > 0 { assert es[known - 1].hash != es[known].hash; }
  }

  /**
   A node at any point of a peer's chain that is sent a stretch of it, from that point or from before, to its
   end: what it knows is skipped, and exactly the rest is adopted.
   */
  lemma {:induction false} CatchesUp(hasher: Hasher, tpm: Option<Tpm>, es: seq<AuditEvent>, known: nat, from: nat)
    requires Chain(hasher, GENESIS, es) && Told(es) && from <= known <= |es|
    ensures Adopted(hasher, tpm, HeadBefore(GENESIS, es, known), es[from..]) == es[known..]
    decreases |es| - from, |es| - known
  {
    var head, batch := HeadBefore(GENESIS, es, known), es[from..];
    if from < |es| {
      assert batch[0] == es[from] && batch[1..] == es[from + 1..];
      if from < known {
        KnownSkipped(hasher, tpm, es, known, from);
        CatchesUp(hasher, tpm, es, known, from + 1);
      } else {
        NextAdopted(hasher, tpm, es, known);
        CatchesUp(hasher, tpm, es, known + 1, from + 1);
        assert es[known..] == [es[known]] + es[known + 1..];
      }
    }
  }

  // ---- Inputs that are adopted and then rejected

  lemma OneBatch(hasher: Hasher, tpm: Option<Tpm>, batch: seq<AuditEvent>)
    ensures AdoptedAll(hasher, tpm, [batch]) == Adopted(hasher, tpm, GENESIS, batch)
  {
    assert [batch][..0] == [];
  }

  lemma AdoptTwo(hasher: Hasher, tpm: Option<Tpm>, x: AuditEvent, y: AuditEvent)
    requires Adoptable(hasher, tpm, GENESIS, x) && Adoptable(hasher, tpm, x.hash, y)
    ensures AdoptedAll(hasher, tpm, [[x, y]]) == [x, y]
  {
    OneBatch(hasher, tpm, [x, y]);
    AdoptFirst(hasher, tpm, GENESIS, [x, y]);
    assert [x, y][1..] == [y];
    AdoptFirst(hasher, tpm, x.hash, [y]);
  }

  /** An unsigned checkpoint linked to the start is adopted as the whole ledger, and then rejected. */
  lemma UnsignedCheckpointRejected(clock: Clock, hasher: Hasher, tpm: Option<Tpm>, e: AuditEvent)
    requires e.kind == CHECKPOINT && e.prevHash == GENESIS && e.hash != GENESIS && HashOk(hasher, e) && !Signed(e)
    ensures StoredAll(clock, hasher, tpm, [[e]]) == [e] && !Verifies(hasher, tpm, [e])
  {
    OneBatch(hasher, tpm, [e]);
    AdoptFirst(hasher, tpm, GENESIS, [e]);
    Timeline.FileOne(KeyOrder(clock), e);
    AcceptedForEveryLimit(hasher, tpm, [e]);
    assert !EventOk(hasher, tpm, [e][0]);
  }

  /** An event stamped before the one it is linked to is adopted, stored in front of it, and the ledger is rejected. */
  lemma FallingStampsRejected(clock: Clock, hasher: Hasher, tpm: Option<Tpm>, a: AuditEvent, b: AuditEvent)
    requires Chain(hasher, GENESIS, [a, b]) && Told([a, b]) && KeyBefore(clock, b, a)
    ensures StoredAll(clock, hasher, tpm, [[a, b]]) == [b, a] && !Verifies(hasher, tpm, [b, a])
  {
    var es := [a, b];
    assert ChainedAt(hasher, GENESIS, es, 0) && ChainedAt(hasher, GENESIS, es, 1);
    AdoptTwo(hasher, tpm, a, b);
    KeyLaws(clock);
    Timeline.FileSwapped(KeyOrder(clock), a, b);
    AcceptedForEveryLimit(hasher, tpm, [b, a]);
    assert !LinkedBack([b, a], 1);
  }

  /** A truncation adopted a second time overwrites itself; what is linked to it then follows something else. */
  lemma ReplayedTruncationRejected(clock: Clock, hasher: Hasher, tpm: Option<Tpm>, c: AuditEvent, e: AuditEvent,
                                   f: AuditEvent)
    requires VerifiedTruncation(tpm, c) && HashOk(hasher, c) && HashOk(hasher, e) && HashOk(hasher, f)
    requires e.kind != CHECKPOINT && f.kind != CHECKPOINT && e.prevHash == c.hash && f.prevHash == c.hash
    requires Told([c, e, f]) && KeysAscend(clock, [c, e, f])
    ensures AdoptedAll(hasher, tpm, [[c, e, c, f]]) == [c, e, c, f]
    ensures StoredAll(clock, hasher, tpm, [[c, e, c, f]]) == [c, e, f] && !Verifies(hasher, tpm, [c, e, f])
  {
    var es, three := [c, e, c, f], [c, e, f];
    assert three[0].hash != three[1].hash && three[0].hash != three[2].hash && three[1].hash != three[2].hash;
    OneBatch(hasher, tpm, es);
    AdoptFirst(hasher, tpm, GENESIS, es);
    AdoptFirst(hasher, tpm, c.hash, es[1..]);
    AdoptFirst(hasher, tpm, e.hash, es[1..][1..]);
    AdoptFirst(hasher, tpm, c.hash, es[1..][1..][1..]);
    assert es[1..] == [e, c, f] && es[1..][1..] == [c, f] && es[1..][1..][1..] == [f];
    KeyLaws(clock);
    assert KeyOrder(clock)(three[0], three[1]) && KeyOrder(clock)(three[1], three[2]);
    Timeline.FileAgain(KeyOrder(clock), c, e, f);
    AcceptedForEveryLimit(hasher, tpm, three);
    assert !LinkedBack(three, 2);
  }

  /** Truncations may come in any order: what is stored behind a checkpoint is not linked to it. */
  lemma TruncationsInAnyOrder(clock: Clock, hasher: Hasher, tpm: Option<Tpm>, c: AuditEvent, d: AuditEvent)
    requires VerifiedTruncation(tpm, c) && VerifiedTruncation(tpm, d) && HashOk(hasher, c) && HashOk(hasher, d)
    requires Told([c, d]) && KeyBefore(clock, d, c)
    ensures StoredAll(clock, hasher, tpm, [[c, d]]) == [d, c] && Verifies(hasher, tpm, [d, c])
  {
    var es := [c, d];
    assert es[0].hash != es[1].hash;
    AdoptTwo(hasher, tpm, c, d);
    KeyLaws(clock);
    Timeline.FileSwapped(KeyOrder(clock), c, d);
    AcceptedForEveryLimit(hasher, tpm, [d, c]);
  }
}
