/**
 Verification of the ledger from its newest event backwards, and the ledgers it
 accepts: those of local appends with retention checkpoints.
 */
module AuditVerifier {
  import opened Options
  import opened CanonicalJson
  import opened Audit

  /** The hardware module: how it signs and what it accepts. */
  datatype Tpm = Tpm(sign: string -> string, verify: (string, string) -> bool)

  /** What it accepts includes what it signed. */
  ghost predicate Sound(tpm: Tpm) {
    forall h :: tpm.verify(h, tpm.sign(h))
  }

  datatype Fault = CheckpointTamper | UnsignedCheckpoint | HashMismatch | ChainBreak

  /** An empty signature counts as none. */
  predicate Signed(e: AuditEvent) { e.hwSignature.Some? && e.hwSignature.value != "" }

  /** `computeHash` on the hashed fields of an event; None when it throws. */
  type Hasher = AuditEvent -> Option<string>

  // ---- One event and one link

  /** The signature or truncation mark that a checkpoint must carry. */
  predicate CheckpointOk(tpm: Option<Tpm>, e: AuditEvent) {
    if Signed(e) && tpm.Some? then tpm.value.verify(e.hash, e.hwSignature.value) else e.prevHash == TRUNCATED
  }

  predicate HashOk(hasher: Hasher, e: AuditEvent) { hasher(e) == Some(e.hash) }

  predicate EventOk(hasher: Hasher, tpm: Option<Tpm>, e: AuditEvent) {
    if e.kind == CHECKPOINT then CheckpointOk(tpm, e) else HashOk(hasher, e)
  }

  /** The link from an event to the next older one; what comes right before a checkpoint is not linked to it. */
  predicate LinkOk(newer: AuditEvent, older: AuditEvent) {
    older.kind == CHECKPOINT || newer.prevHash == older.hash || newer.prevHash == TRUNCATED
  }

  /** Events that the verifier can look at without an exception. */
  predicate Hashable(hasher: Hasher, e: AuditEvent) { e.kind == CHECKPOINT || hasher(e).Some? }

  /** The link from the event at position i of a stream to the one yielded before it. */
  predicate LinkedAt(stream: seq<AuditEvent>, i: nat)
    requires 0 < i < |stream|
  {
    LinkOk(stream[i - 1], stream[i])
  }

  /** What an accepted stream is, newest event first. */
  ghost predicate Accepted(hasher: Hasher, tpm: Option<Tpm>, stream: seq<AuditEvent>) {
    && (forall i :: 0 <= i < |stream| ==> EventOk(hasher, tpm, stream[i]))
    && (forall i :: 0 < i < |stream| ==> LinkedAt(stream, i))
  }

  datatype Verdict = Valid(checked: nat) | Broken(checked: nat, fault: Fault) | Raised(checked: nat)

  /** Everything before position n is in order. */
  ghost predicate GoodUpTo(hasher: Hasher, tpm: Option<Tpm>, stream: seq<AuditEvent>, n: nat)
    requires n <= |stream|
  {
    Accepted(hasher, tpm, stream[..n])
  }

  lemma GoodNext(hasher: Hasher, tpm: Option<Tpm>, stream: seq<AuditEvent>, n: nat)
    requires n < |stream| && GoodUpTo(hasher, tpm, stream, n)
    ensures GoodUpTo(hasher, tpm, stream, n + 1) <==>
      EventOk(hasher, tpm, stream[n]) && (n > 0 ==> LinkOk(stream[n - 1], stream[n]))
  {
    var a, b := stream[..n], stream[..n + 1];
    assert forall i :: 0 <= i < n ==> a[i] == b[i];
    if GoodUpTo(hasher, tpm, stream, n + 1) {
      assert EventOk(hasher, tpm, b[n]);
      if n > 0 { assert LinkedAt(b, n); }
    }
    forall i | 0 < i < n ensures LinkedAt(b, i) { assert LinkedAt(a, i); }
  }

  /**
   The verification loop. It ends with Valid exactly on the accepted streams; otherwise it reports
   the first event at which the stream stops being acceptable, and what is wrong there.
   */
  method VerifyChain(hasher: Hasher, tpm: Option<Tpm>, stream: seq<AuditEvent>) returns (v: Verdict)
    ensures v.Valid? <==> Accepted(hasher, tpm, stream)
    ensures v.Valid? ==> v.checked == |stream|
    ensures !v.Valid? ==> 0 < v.checked <= |stream| && GoodUpTo(hasher, tpm, stream, v.checked - 1)
    ensures !v.Valid? ==> !GoodUpTo(hasher, tpm, stream, v.checked)
    ensures v.Raised? <==> !v.Valid? && !Hashable(hasher, stream[v.checked - 1])
    ensures v.Broken? ==> var e := stream[v.checked - 1];
      && (v.fault == HashMismatch <==> e.kind != CHECKPOINT && hasher(e) != Some(e.hash))
      && (v.fault == CheckpointTamper <==>
          e.kind == CHECKPOINT && Signed(e) && tpm.Some? && !tpm.value.verify(e.hash, e.hwSignature.value))
      && (v.fault == UnsignedCheckpoint <==>
          e.kind == CHECKPOINT && !(Signed(e) && tpm.Some?) && e.prevHash != TRUNCATED)
      && (v.fault == ChainBreak ==>
          v.checked > 1 && stream[v.checked - 2].prevHash != e.hash && stream[v.checked - 2].prevHash != TRUNCATED)
  {
    var checked := 0;
    var prev: Option<AuditEvent> := None;
    for n := 0 to |stream|
      invariant checked == n && GoodUpTo(hasher, tpm, stream, n)
      invariant prev == if n == 0 then None else Some(stream[n - 1])
    {
      var event := stream[n];
      checked := checked + 1;
      GoodNext(hasher, tpm, stream, n);
      PrefixAccepted(hasher, tpm, stream, n + 1);
      if event.kind == CHECKPOINT {
        if Signed(event) && tpm.Some? {
          if !tpm.value.verify(event.hash, event.hwSignature.value) { return Broken(checked, CheckpointTamper); }
        } else if event.prevHash != TRUNCATED {
          return Broken(checked, UnsignedCheckpoint);
        }
        prev := Some(event);
        continue;
      }
      var expected := hasher(event);
      if expected.None? { return Raised(checked); }
      if event.hash != expected.value { return Broken(checked, HashMismatch); }
      if prev.Some? && prev.value.prevHash != event.hash && prev.value.prevHash != TRUNCATED {
        return Broken(checked, ChainBreak);
      }
      prev := Some(event);
    }
    assert stream[..|stream|] == stream;
    return Valid(checked);
  }

  lemma PrefixAccepted(hasher: Hasher, tpm: Option<Tpm>, stream: seq<AuditEvent>, n: nat)
    requires n <= |stream|
    ensures Accepted(hasher, tpm, stream) ==> GoodUpTo(hasher, tpm, stream, n)
  {
    if Accepted(hasher, tpm, stream) {
      var a := stream[..n];
      forall i | 0 < i < n ensures LinkedAt(a, i) { assert LinkedAt(stream, i); }
    }
  }

  // ---- The ledger, oldest event first

  /** What `getStream` yields in reverse: the newest `limit` events, newest first. */
  function Stream(repo: seq<AuditEvent>, limit: nat): (stream: seq<AuditEvent>)
    ensures |stream| == if limit < |repo| then limit else |repo|
    ensures forall i :: 0 <= i < |stream| ==> stream[i] == repo[|repo| - 1 - i]
  {
    seq(if limit < |repo| then limit else |repo|, i requires 0 <= i < |repo| => repo[|repo| - 1 - i])
  }

  ghost predicate LedgerOk(hasher: Hasher, tpm: Option<Tpm>, repo: seq<AuditEvent>) {
    && (forall i :: 0 <= i < |repo| ==> EventOk(hasher, tpm, repo[i]))
    && (forall i :: 0 < i < |repo| ==> LinkedBack(repo, i))
  }

  /** The link from the event at position i of a ledger to the one stored before it. */
  predicate LinkedBack(repo: seq<AuditEvent>, i: nat)
    requires 0 < i < |repo|
  {
    LinkOk(repo[i], repo[i - 1])
  }

  /** A ledger is accepted for every limit exactly when each of its events and each of its links is in order. */
  lemma AcceptedForEveryLimit(hasher: Hasher, tpm: Option<Tpm>, repo: seq<AuditEvent>)
    ensures LedgerOk(hasher, tpm, repo) <==> forall limit: nat :: Accepted(hasher, tpm, Stream(repo, limit))
  {
    if LedgerOk(hasher, tpm, repo) {
      forall limit: nat ensures Accepted(hasher, tpm, Stream(repo, limit)) {
        var stream := Stream(repo, limit);
        forall i | 0 < i < |stream| ensures LinkedAt(stream, i) { assert LinkedBack(repo, |repo| - i); }
      }
    }
    if forall limit: nat :: Accepted(hasher, tpm, Stream(repo, limit)) {
      var stream := Stream(repo, |repo|);
      assert Accepted(hasher, tpm, stream);
      forall i | 0 <= i < |repo| ensures EventOk(hasher, tpm, repo[i]) { assert stream[|repo| - 1 - i] == repo[i]; }
      forall i | 0 < i < |repo| ensures LinkedBack(repo, i) { assert LinkedAt(stream, |repo| - i); }
    }
  }

  // ---- What an accepted stretch pins down

  /** No checkpoint and no truncation. */
  ghost predicate Plain(stream: seq<AuditEvent>) {
    forall i :: 0 <= i < |stream| ==>
      Proper(stream[i]) && stream[i].kind != CHECKPOINT && stream[i].prevHash != TRUNCATED
  }

  /** Events have equal computed hashes exactly when they agree on the hashed fields. */
  ghost predicate Determines(hasher: Hasher) {
    forall e, f :: Proper(e) && Proper(f) && hasher(e).Some? ==> (hasher(e) == hasher(f) <==> SameFields(e, f))
  }

  function HasherOf(sha: Digest): Hasher { (e: AuditEvent) => ComputeHash(sha, e) }

  lemma ComputeHashDetermines(sha: Digest)
    requires CollisionFree(sha)
    ensures Determines(HasherOf(sha))
  {
    var hasher := HasherOf(sha);
    forall e: AuditEvent, f: AuditEvent | Proper(e) && Proper(f) && hasher(e).Some?
      ensures hasher(e) == hasher(f) <==> SameFields(e, f)
    {
      HashDeterminesFields(sha, e, f);
    }
  }

  /** Among the events of a kind, equal computed hashes mean equal predecessors. */
  ghost predicate LinksTold(hasher: Hasher, proper: AuditEvent -> bool) {
    forall e, f :: proper(e) && proper(f) && hasher(e).Some? && hasher(e) == hasher(f) ==> e.prevHash == f.prevHash
  }

  lemma LinksAreTold(sha: Digest)
    requires CollisionFree(sha)
    ensures LinksTold(HasherOf(sha), e => Proper(e))
  {
    ComputeHashDetermines(sha);
    var hasher := HasherOf(sha);
    forall e: AuditEvent, f: AuditEvent | Proper(e) && Proper(f) && hasher(e).Some? && hasher(e) == hasher(f)
      ensures e.prevHash == f.prevHash
    {
      assert SameFields(e, f);
    }
  }

  lemma {:induction false} HashesPinned(hasher: Hasher, tpm: Option<Tpm>, proper: AuditEvent -> bool,
                                        a: seq<AuditEvent>, b: seq<AuditEvent>, n: nat)
    requires LinksTold(hasher, proper)
    requires Accepted(hasher, tpm, a) && Accepted(hasher, tpm, b)
    requires forall i :: 0 <= i < |a| ==> proper(a[i]) && a[i].kind != CHECKPOINT && a[i].prevHash != TRUNCATED
    requires forall i :: 0 <= i < |b| ==> proper(b[i]) && b[i].kind != CHECKPOINT && b[i].prevHash != TRUNCATED
    requires |a| == |b| && n < |a| && a[0].hash == b[0].hash
    ensures a[n].hash == b[n].hash && hasher(a[n]) == hasher(b[n]) == Some(a[n].hash)
  {
    if n > 0 {
      HashesPinned(hasher, tpm, proper, a, b, n - 1);
      assert LinkedAt(a, n) && LinkedAt(b, n);
    }
    assert EventOk(hasher, tpm, a[n]) && EventOk(hasher, tpm, b[n]);
  }

  /**
   Two accepted stretches of the same length with the same newest hash, without checkpoints
   and truncations, have the same hashes and agree on all ten hashed fields throughout.
   */
  lemma NewestHashPins(sha: Digest, tpm: Option<Tpm>, a: seq<AuditEvent>, b: seq<AuditEvent>, n: nat)
    requires CollisionFree(sha)
    requires Accepted(HasherOf(sha), tpm, a) && Accepted(HasherOf(sha), tpm, b) && Plain(a) && Plain(b)
    requires |a| == |b| && n < |a| && a[0].hash == b[0].hash
    ensures a[n].hash == b[n].hash && a[n].prevHash == b[n].prevHash
    ensures a[n].id == b[n].id && a[n].timestamp == b[n].timestamp && a[n].kind == b[n].kind
    ensures a[n].message == b[n].message && Same(a[n].severity, b[n].severity) && Same(a[n].caller, b[n].caller)
    ensures Same(a[n].actor, b[n].actor) && Same(a[n].data, b[n].data)
    ensures Same(a[n].correlationId, b[n].correlationId)
  {
    LinksAreTold(sha);
    HashesPinned(HasherOf(sha), tpm, e => Proper(e), a, b, n);
    HashDeterminesFields(sha, a[n], b[n]);
  }

  /** An ordinary event in place of another with the same hash, and the same predecessor if it is right. */
  lemma OneReplaced(hasher: Hasher, tpm: Option<Tpm>, stream: seq<AuditEvent>, i: nat, e: AuditEvent)
    requires Accepted(hasher, tpm, stream) && i < |stream| && e.hash == stream[i].hash
    requires e.kind != CHECKPOINT && stream[i].kind != CHECKPOINT
    requires hasher(e) == Some(e.hash) ==> e.prevHash == stream[i].prevHash
    ensures hasher(stream[i]) == Some(e.hash)
    ensures Accepted(hasher, tpm, stream[i := e]) <==> hasher(e) == Some(e.hash)
  {
    var altered := stream[i := e];
    assert EventOk(hasher, tpm, stream[i]);
    if hasher(e) == Some(e.hash) {
      forall j | 0 <= j < |altered| ensures EventOk(hasher, tpm, altered[j]) { assert EventOk(hasher, tpm, stream[j]); }
      forall j | 0 < j < |altered| ensures LinkedAt(altered, j) { assert LinkedAt(stream, j); }
    } else {
      assert !EventOk(hasher, tpm, altered[i]);
    }
  }

  /**
   An accepted stream with one ordinary event altered, its hash kept, is accepted exactly when the event still
   has the hashed fields it had, up to the order of members.
   */
  lemma AlterationSeen(sha: Digest, tpm: Option<Tpm>, stream: seq<AuditEvent>, i: nat, e: AuditEvent)
    requires CollisionFree(sha) && Accepted(HasherOf(sha), tpm, stream) && i < |stream|
    requires Proper(stream[i]) && Proper(e) && e.hash == stream[i].hash
    requires e.kind != CHECKPOINT && stream[i].kind != CHECKPOINT
    ensures var was := stream[i];
      Accepted(HasherOf(sha), tpm, stream[i := e]) <==>
        && was.id == e.id && was.timestamp == e.timestamp && was.kind == e.kind && was.message == e.message
        && was.prevHash == e.prevHash && Same(was.severity, e.severity) && Same(was.caller, e.caller)
        && Same(was.actor, e.actor) && Same(was.data, e.data) && Same(was.correlationId, e.correlationId)
  {
    assert EventOk(HasherOf(sha), tpm, stream[i]);
    HashDeterminesFields(sha, stream[i], e);
    OneReplaced(HasherOf(sha), tpm, stream, i, e);
  }

  /** A checkpoint whose signature the module rejects breaks the stream, truncation or not. */
  lemma ForgedCheckpointSeen(hasher: Hasher, tpm: Option<Tpm>, stream: seq<AuditEvent>, i: nat)
    requires i < |stream| && stream[i].kind == CHECKPOINT && tpm.Some?
    requires stream[i].hwSignature.Some? && stream[i].hwSignature.value != ""
    requires !tpm.value.verify(stream[i].hash, stream[i].hwSignature.value)
    ensures !Accepted(hasher, tpm, stream)
  {
    assert !EventOk(hasher, tpm, stream[i]);
  }

  // ---- Hash chains

  /** The chain head that position i is linked to. */
  function HeadBefore(from: string, es: seq<AuditEvent>, i: nat): string
    requires i <= |es|
  {
    if i == 0 then from else es[i - 1].hash
  }

  function ChainEnd(from: string, es: seq<AuditEvent>): string { HeadBefore(from, es, |es|) }

  predicate ChainedAt(hasher: Hasher, from: string, es: seq<AuditEvent>, i: nat)
    requires i < |es|
  {
    HashOk(hasher, es[i]) && es[i].kind != CHECKPOINT && es[i].prevHash == HeadBefore(from, es, i)
  }

  /** Ordinary events, each hashed over its fields and linked to the one before, the first to `from`. */
  ghost predicate Chain(hasher: Hasher, from: string, es: seq<AuditEvent>) {
    forall i :: 0 <= i < |es| ==> ChainedAt(hasher, from, es, i)
  }

  lemma ChainConcat(hasher: Hasher, from: string, a: seq<AuditEvent>, b: seq<AuditEvent>)
    ensures Chain(hasher, from, a + b) <==> Chain(hasher, from, a) && Chain(hasher, ChainEnd(from, a), b)
    ensures ChainEnd(from, a + b) == ChainEnd(ChainEnd(from, a), b)
  {
    var c := a + b;
    forall i | 0 <= i < |a| ensures ChainedAt(hasher, from, c, i) == ChainedAt(hasher, from, a, i) {}
    forall i | 0 <= i < |b|
      ensures ChainedAt(hasher, from, c, |a| + i) == ChainedAt(hasher, ChainEnd(from, a), b, i)
    {}
    if Chain(hasher, from, c) {
      forall i | 0 <= i < |b| ensures ChainedAt(hasher, ChainEnd(from, a), b, i) {
        assert ChainedAt(hasher, from, c, |a| + i);
      }
    }
    if Chain(hasher, from, a) && Chain(hasher, ChainEnd(from, a), b) {
      forall i | 0 <= i < |c| ensures ChainedAt(hasher, from, c, i) {
        if i >= |a| { assert ChainedAt(hasher, ChainEnd(from, a), b, i - |a|); }
      }
    }
  }
}
