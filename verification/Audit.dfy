/**
 Audit events, the input of their hash, and what an equal hash says about them
 when the digest does not collide.
 */
module Audit {
  import opened Options
  import opened CanonicalJson

  const CHECKPOINT := "CHECKPOINT"
  const TRUNCATED := "TRUNCATED"
  const GENESIS := "GENESIS"
  const MERKLE_COMMIT := "MERKLE_COMMIT"

  /** The digest of a text. */
  type Digest = string -> string

  /** A stored event; a missing optional field is `Undefined`. */
  datatype AuditEvent = AuditEvent(
    id: string, timestamp: string, kind: string, severity: Json, caller: Json, message: string,
    actor: Json, data: Json, correlationId: Json, hash: string, prevHash: string, hwSignature: Option<string>)

  const KEYS: seq<string> :=
    ["id", "timestamp", "type", "severity", "caller", "message", "actor", "data", "correlationId", "prevHash"]

  /** The hashed fields, in the order of KEYS. */
  function Fields(e: AuditEvent): (fs: seq<Json>)
    ensures |fs| == |KEYS|
  {
    [Text(e.id), Text(e.timestamp), Text(e.kind), e.severity, e.caller, Text(e.message),
     e.actor, e.data, e.correlationId, Text(e.prevHash)]
  }

  function HashInput(e: AuditEvent): Json { Object(KEYS, Fields(e)) }

  /** A value that JavaScript can build, without an array [undefined] in it. */
  ghost predicate ProperValue(v: Json) { WellFormed(v) && NoHole(v) }

  ghost predicate Proper(e: AuditEvent) {
    && ProperValue(e.severity) && ProperValue(e.caller) && ProperValue(e.actor)
    && ProperValue(e.data) && ProperValue(e.correlationId)
  }

  lemma KeysDistinct()
    ensures Distinct(KEYS)
  {
    assert forall i, j :: 0 <= i < j < |KEYS| ==> |KEYS[i]| != |KEYS[j]| || KEYS[i][0] != KEYS[j][0];
  }

  lemma InputWellFormed(e: AuditEvent)
    requires Proper(e)
    ensures WellFormed(HashInput(e)) && NoHole(HashInput(e))
  {
    KeysDistinct();
  }

  /** `computeHash` of the hashed fields; it throws when the serializer does. */
  function ComputeHash(sha: Digest, e: AuditEvent): Option<string> {
    var output := Stringify(HashInput(e), 0);
    if output.Printed? then Some(sha(output.text)) else None
  }

  ghost predicate CollisionFree(sha: Digest) {
    forall s, t :: sha(s) == sha(t) ==> s == t
  }

  lemma FieldOfInput(e: AuditEvent, i: nat)
    requires i < |KEYS|
    ensures KEYS[i] in HashInput(e).keys && Member(HashInput(e), KEYS[i]) == Fields(e)[i]
  {
    KeysDistinct();
    assert IndexOf(KEYS, KEYS[i]) == i;
  }

  /** The value has a member under the key, and it is the given one. */
  ghost predicate Holds(v: Json, k: string, w: Json)
    requires v.Object? && |v.keys| == |v.vals|
  {
    k in v.keys && Member(v, k) == w
  }

  /** What is hashed of an event: ten members, under these names. */
  lemma InputMembers(e: AuditEvent)
    ensures var v := HashInput(e);
      && |v.keys| == |v.vals| == 10
      && Holds(v, "id", Text(e.id)) && Holds(v, "timestamp", Text(e.timestamp)) && Holds(v, "type", Text(e.kind))
      && Holds(v, "severity", e.severity) && Holds(v, "caller", e.caller) && Holds(v, "message", Text(e.message))
      && Holds(v, "actor", e.actor) && Holds(v, "data", e.data) && Holds(v, "correlationId", e.correlationId)
      && Holds(v, "prevHash", Text(e.prevHash))
  {
    FieldOfInput(e, 0);
    FieldOfInput(e, 1);
    FieldOfInput(e, 2);
    FieldOfInput(e, 3);
    FieldOfInput(e, 4);
    FieldOfInput(e, 5);
    FieldOfInput(e, 6);
    FieldOfInput(e, 7);
    FieldOfInput(e, 8);
    FieldOfInput(e, 9);
  }

  /** Two events agree on every hashed field, free-form fields up to the order of their members. */
  ghost predicate SameFields(e: AuditEvent, f: AuditEvent) {
    && e.id == f.id && e.timestamp == f.timestamp && e.kind == f.kind && e.message == f.message
    && e.prevHash == f.prevHash && Same(e.severity, f.severity) && Same(e.caller, f.caller)
    && Same(e.actor, f.actor) && Same(e.data, f.data) && Same(e.correlationId, f.correlationId)
  }

  lemma FieldsAgree(e: AuditEvent, f: AuditEvent)
    requires SameFields(e, f)
    ensures forall i :: 0 <= i < |KEYS| ==> Same(Fields(e)[i], Fields(f)[i])
  {}

  lemma AgreeingFields(e: AuditEvent, f: AuditEvent)
    requires forall i :: 0 <= i < |KEYS| ==> Same(Fields(e)[i], Fields(f)[i])
    ensures SameFields(e, f)
  {
    var p, q := Fields(e), Fields(f);
    assert Same(p[0], q[0]) && Same(p[1], q[1]) && Same(p[2], q[2]) && Same(p[3], q[3]) && Same(p[4], q[4]);
    assert Same(p[5], q[5]) && Same(p[6], q[6]) && Same(p[7], q[7]) && Same(p[8], q[8]) && Same(p[9], q[9]);
  }

  lemma SameInputs(e: AuditEvent, f: AuditEvent)
    ensures Same(HashInput(e), HashInput(f)) <==> SameFields(e, f)
  {
    KeysDistinct();
    if SameFields(e, f) {
      FieldsAgree(e, f);
      AlignedSame(HashInput(e), HashInput(f));
    }
    if Same(HashInput(e), HashInput(f)) {
      forall i | 0 <= i < |KEYS| ensures Same(Fields(e)[i], Fields(f)[i]) {
        SameAligned(HashInput(e), HashInput(f), i);
      }
      AgreeingFields(e, f);
    }
  }

  /**
   Without collisions, events have the same computed hash exactly when they agree on each of the ten hashed
   fields; the hash is computed of both or of neither.
   */
  lemma HashDeterminesFields(sha: Digest, e: AuditEvent, f: AuditEvent)
    requires CollisionFree(sha) && Proper(e) && Proper(f) && ComputeHash(sha, e).Some?
    ensures ComputeHash(sha, e) == ComputeHash(sha, f) <==>
      && e.id == f.id && e.timestamp == f.timestamp && e.kind == f.kind && e.message == f.message
      && e.prevHash == f.prevHash && Same(e.severity, f.severity) && Same(e.caller, f.caller)
      && Same(e.actor, f.actor) && Same(e.data, f.data) && Same(e.correlationId, f.correlationId)
  {
    InputWellFormed(e);
    InputWellFormed(f);
    StringifyMeaning(HashInput(e), 0);
    StringifyMeaning(HashInput(f), 0);
    TextDetermines(HashInput(e), HashInput(f));
    SameInputs(e, f);
    if SameFields(e, f) { SameLimits(HashInput(e), HashInput(f), 0); }
  }
}
