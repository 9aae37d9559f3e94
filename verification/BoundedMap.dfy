/**
 The bounded map with least-recently-used eviction: a dictionary into a doubly
 linked list, which together behave as a recency-ordered association list.
 */
module BoundedMap {
  import opened Options

  // ---- The specification: an association list, most recently used first

  type Entries<K, V> = seq<(K, V)>

  ghost predicate DistinctKeys<K, V>(es: Entries<K, V>) {
    forall i, j :: 0 <= i < j < |es| ==> es[i].0 != es[j].0
  }

  function Without<T>(s: seq<T>, i: nat): (r: seq<T>)
    requires i < |s|
    ensures |r| == |s| - 1
    ensures forall j :: 0 <= j < i ==> r[j] == s[j]
    ensures forall j :: i <= j < |r| ==> r[j] == s[j + 1]
  {
    s[..i] + s[i + 1..]
  }

  function Removed<K(==), V>(es: Entries<K, V>, k: K): (r: Entries<K, V>)
    ensures |r| <= |es|
  {
    if es == [] then [] else if es[0].0 == k then es[1..] else [es[0]] + Removed(es[1..], k)
  }

  function Lookup<K(==), V>(es: Entries<K, V>, k: K): Option<V> {
    if es == [] then None else if es[0].0 == k then Some(es[0].1) else Lookup(es[1..], k)
  }

  /** Setting a key puts it in front; a new key in a full list pushes out the last entry. */
  function SetSpec<K(==), V>(capacity: nat, es: Entries<K, V>, k: K, v: V): Entries<K, V> {
    if Lookup(es, k).Some? then [(k, v)] + Removed(es, k)
    else [(k, v)] + (if |es| >= capacity && es != [] then es[..|es| - 1] else es)
  }

  /** Getting a key that is there puts it in front. */
  function GetSpec<K(==), V>(es: Entries<K, V>, k: K): Entries<K, V> {
    if Lookup(es, k).Some? then [(k, Lookup(es, k).value)] + Removed(es, k) else es
  }

  lemma {:induction false} LookupAt<K, V>(es: Entries<K, V>, k: K, i: nat)
    requires DistinctKeys(es) && i < |es| && es[i].0 == k
    ensures Lookup(es, k) == Some(es[i].1) && Removed(es, k) == Without(es, i)
  {
    if i == 0 {
      assert Without(es, 0) == es[1..];
    } else {
      assert es[0].0 != k;
      LookupAt(es[1..], k, i - 1);
      assert Without(es, i) == [es[0]] + Without(es[1..], i - 1);
    }
  }

  lemma {:induction false} LookupMissing<K, V>(es: Entries<K, V>, k: K)
    requires forall i :: 0 <= i < |es| ==> es[i].0 != k
    ensures Lookup(es, k) == None && Removed(es, k) == es
  {
    if es != [] {
      LookupMissing(es[1..], k);
      assert es == [es[0]] + es[1..];
    }
  }

  // ---- Runs of the specification

  datatype Op<K, V> = SetOp(key: K, value: V) | GetOp(key: K) | DeleteOp(key: K) | ClearOp

  function Apply<K(==), V>(capacity: nat, es: Entries<K, V>, op: Op<K, V>): Entries<K, V> {
    match op
    case SetOp(k, v) => SetSpec(capacity, es, k, v)
    case GetOp(k) => GetSpec(es, k)
    case DeleteOp(k) => Removed(es, k)
    case ClearOp => []
  }

  function Run<K(==), V>(capacity: nat, ops: seq<Op<K, V>>): Entries<K, V> {
    if ops == [] then [] else Apply(capacity, Run(capacity, ops[..|ops| - 1]), ops[|ops| - 1])
  }

  /** When a key was last set or asked for; -1 for never. */
  function LastUse<K(==), V>(ops: seq<Op<K, V>>, k: K): int {
    if ops == [] then -1
    else
      var op := ops[|ops| - 1];
      if (op.SetOp? || op.GetOp?) && op.key == k then |ops| - 1 else LastUse(ops[..|ops| - 1], k)
  }

  /** The value last set for a key and not deleted since. */
  function LastValue<K(==), V>(ops: seq<Op<K, V>>, k: K): Option<V> {
    if ops == [] then None
    else
      match ops[|ops| - 1]
      case SetOp(key, v) => if key == k then Some(v) else LastValue(ops[..|ops| - 1], k)
      case GetOp(_) => LastValue(ops[..|ops| - 1], k)
      case DeleteOp(key) => if key == k then None else LastValue(ops[..|ops| - 1], k)
      case ClearOp => None
  }

  lemma {:induction false} LastUseBound<K, V>(ops: seq<Op<K, V>>, k: K)
    ensures LastUse(ops, k) < |ops|
  {
    if ops != [] { LastUseBound(ops[..|ops| - 1], k); }
  }

  /** The entries are in the order of their last use, most recent first, and hold the values last set. */
  ghost predicate ByRecency<K, V>(ops: seq<Op<K, V>>, es: Entries<K, V>) {
    && (forall i, j :: 0 <= i < j < |es| ==> LastUse(ops, es[i].0) > LastUse(ops, es[j].0))
    && (forall i :: 0 <= i < |es| ==> LastValue(ops, es[i].0) == Some(es[i].1))
  }

  /** Either the key is absent and nothing changes, or one entry leaves. */
  lemma {:induction false} RemovedCases<K, V>(es: Entries<K, V>, k: K) returns (i: int)
    requires DistinctKeys(es)
    ensures -1 <= i < |es|
    ensures i == -1 ==> Lookup(es, k) == None && Removed(es, k) == es && forall j :: 0 <= j < |es| ==> es[j].0 != k
    ensures i >= 0 ==> es[i].0 == k && Lookup(es, k) == Some(es[i].1) && Removed(es, k) == Without(es, i)
  {
    if j :| 0 <= j < |es| && es[j].0 == k {
      i := j;
      LookupAt(es, k, i);
    } else {
      i := -1;
      LookupMissing(es, k);
    }
  }

  /** What an operation on key k does to the last use and last value of the other keys: nothing. */
  lemma Untouched<K, V>(ops: seq<Op<K, V>>, op: Op<K, V>, k: K)
    ensures !op.ClearOp? && op.key != k ==> LastUse(ops + [op], k) == LastUse(ops, k)
    ensures !op.ClearOp? && op.key != k ==> LastValue(ops + [op], k) == LastValue(ops, k)
    ensures op.SetOp? && op.key == k ==> LastUse(ops + [op], k) == |ops| && LastValue(ops + [op], k) == Some(op.value)
    ensures op.GetOp? ==> LastValue(ops + [op], k) == LastValue(ops, k)
    ensures op.GetOp? && op.key == k ==> LastUse(ops + [op], k) == |ops|
  {
    assert (ops + [op])[..|ops|] == ops;
  }

  /** The entries that are left when some go, none of them for the key of the operation. */
  lemma RecencyKept<K, V>(ops: seq<Op<K, V>>, op: Op<K, V>, es: Entries<K, V>)
    requires ByRecency(ops, es) && !op.ClearOp? && forall i :: 0 <= i < |es| ==> es[i].0 != op.key
    ensures ByRecency(ops + [op], es)
    ensures forall i :: 0 <= i < |es| ==> LastUse(ops + [op], es[i].0) < |ops|
  {
    forall i | 0 <= i < |es|
      ensures LastUse(ops + [op], es[i].0) == LastUse(ops, es[i].0) < |ops|
      ensures LastValue(ops + [op], es[i].0) == LastValue(ops, es[i].0)
    {
      Untouched(ops, op, es[i].0);
      LastUseBound(ops, es[i].0);
    }
  }

  lemma RecencyFront<K, V>(ops: seq<Op<K, V>>, op: Op<K, V>, es: Entries<K, V>, v: V)
    requires ByRecency(ops, es) && (op.SetOp? || op.GetOp?) && forall i :: 0 <= i < |es| ==> es[i].0 != op.key
    requires if op.SetOp? then op.value == v else LastValue(ops, op.key) == Some(v)
    ensures ByRecency(ops + [op], [(op.key, v)] + es)
  {
    RecencyKept(ops, op, es);
    Untouched(ops, op, op.key);
  }

  lemma RecencyRest<K, V>(ops: seq<Op<K, V>>, es: Entries<K, V>, k: K)
    requires ByRecency(ops, es)
    ensures ByRecency(ops, Removed(es, k))
    ensures forall j :: 0 <= j < |Removed(es, k)| ==> Removed(es, k)[j].0 != k
    ensures Lookup(es, k).None? ==> Removed(es, k) == es
    ensures Lookup(es, k).Some? ==> Lookup(es, k) == LastValue(ops, k)
  {
    var i := RemovedCases(es, k);
    if i >= 0 {
      forall j | 0 <= j < |es| - 1 ensures Without(es, i)[j].0 != k {
        assert Without(es, i)[j] == es[if j < i then j else j + 1];
      }
    }
  }

  lemma RecencySet<K, V>(capacity: nat, ops: seq<Op<K, V>>, k: K, v: V, es: Entries<K, V>)
    requires ByRecency(ops, es)
    ensures ByRecency(ops + [SetOp(k, v)], SetSpec(capacity, es, k, v))
  {
    RecencyRest(ops, es, k);
    if Lookup(es, k).None? && |es| >= capacity && es != [] {
      var kept := es[..|es| - 1];
      assert forall i :: 0 <= i < |kept| ==> kept[i] == es[i];
      RecencyFront(ops, SetOp(k, v), kept, v);
    } else {
      RecencyFront(ops, SetOp(k, v), Removed(es, k), v);
    }
  }

  lemma RecencyGet<K, V>(ops: seq<Op<K, V>>, k: K, es: Entries<K, V>)
    requires ByRecency(ops, es)
    ensures ByRecency(ops + [GetOp(k)], GetSpec(es, k))
  {
    RecencyRest(ops, es, k);
    if Lookup(es, k).None? {
      RecencyKept(ops, GetOp(k), es);
    } else {
      RecencyFront(ops, GetOp(k), Removed(es, k), Lookup(es, k).value);
    }
  }

  lemma RecencyStep<K, V>(capacity: nat, ops: seq<Op<K, V>>, op: Op<K, V>, es: Entries<K, V>)
    requires ByRecency(ops, es)
    ensures ByRecency(ops + [op], Apply(capacity, es, op))
  {
    match op
    case SetOp(k, v) => RecencySet(capacity, ops, k, v, es);
    case GetOp(k) => RecencyGet(ops, k, es);
    case DeleteOp(k) =>
      RecencyRest(ops, es, k);
      RecencyKept(ops, op, Removed(es, k));
    case ClearOp =>
  }

  /** After any run the list is ordered by recency of use and each entry has the value last set. */
  lemma {:induction false} RunByRecency<K, V>(capacity: nat, ops: seq<Op<K, V>>)
    ensures ByRecency(ops, Run(capacity, ops))
  {
    if ops != [] {
      var n := |ops| - 1;
      RunByRecency(capacity, ops[..n]);
      RecencyStep(capacity, ops[..n], ops[n], Run(capacity, ops[..n]));
      assert ops == ops[..n] + [ops[n]];
    }
  }

  /** A new key in a full map evicts exactly the key whose last use is the oldest. */
  lemma EvictsLeastRecentlyUsed<K, V>(capacity: nat, ops: seq<Op<K, V>>, k: K, v: V)
    requires var es := Run(capacity, ops); Lookup(es, k).None? && es != [] && |es| >= capacity
    ensures var es := Run(capacity, ops);
      && SetSpec(capacity, es, k, v) == [(k, v)] + es[..|es| - 1]
      && forall i :: 0 <= i < |es| - 1 ==> LastUse(ops, es[i].0) > LastUse(ops, es[|es| - 1].0)
  {
    RunByRecency(capacity, ops);
  }

  // ---- Which keys are there

  /** Removing a key touches no other. */
  lemma {:induction false} RemovedLookup<K, V>(es: Entries<K, V>, k: K, j: K)
    requires DistinctKeys(es)
    ensures Lookup(Removed(es, k), j) == if j == k then None else Lookup(es, j)
  {
    if es != [] {
      RemovedLookup(es[1..], k, j);
      if es[0].0 == k && j == k {
        forall i | 0 <= i < |es[1..]| ensures es[1..][i].0 != k { assert es[1..][i] == es[i + 1]; }
        LookupMissing(es[1..], k);
      }
    }
  }

  /** Without its last entry a list has lost the last key and no other. */
  lemma {:induction false} DroppedLookup<K, V>(es: Entries<K, V>, j: K)
    requires DistinctKeys(es) && es != []
    ensures Lookup(es[..|es| - 1], j) == if j == es[|es| - 1].0 then None else Lookup(es, j)
  {
    var n := |es| - 1;
    if n > 0 {
      assert es[..n][1..] == es[1..][..n - 1];
      DroppedLookup(es[1..], j);
      assert es[0].0 != es[n].0;
    }
  }

  /** What an operation makes of the value of each key; only a new key in a full map costs another its place. */
  lemma ApplyLookup<K, V>(capacity: nat, es: Entries<K, V>, op: Op<K, V>, j: K)
    requires DistinctKeys(es)
    ensures op.SetOp? && j == op.key ==> Lookup(Apply(capacity, es, op), j) == Some(op.value)
    ensures op.SetOp? && j != op.key ==>
      Lookup(Apply(capacity, es, op), j) ==
        if Lookup(es, op.key).None? && |es| >= capacity && es != [] && j == es[|es| - 1].0 then None else Lookup(es, j)
    ensures op.GetOp? ==> Lookup(Apply(capacity, es, op), j) == Lookup(es, j)
    ensures op.DeleteOp? ==> Lookup(Apply(capacity, es, op), j) == if j == op.key then None else Lookup(es, j)
    ensures op.ClearOp? ==> Lookup(Apply(capacity, es, op), j) == None
  {
    if !op.ClearOp? {
      RemovedLookup(es, op.key, j);
      if es != [] { DroppedLookup(es, j); }
    }
  }

  /** Operation t takes the key away: it deletes it, clears the map, or evicts it as the one not used for longest. */
  ghost predicate TakesAway<K, V>(capacity: nat, ops: seq<Op<K, V>>, t: nat, j: K)
    requires t < |ops|
  {
    match ops[t]
    case SetOp(k, _) =>
      var es := Run(capacity, ops[..t]);
      && k != j && Lookup(es, k).None? && Lookup(es, j).Some? && |es| >= capacity
      && forall i :: 0 <= i < |es| && es[i].0 != j ==> LastUse(ops[..t], j) < LastUse(ops[..t], es[i].0)
    case GetOp(_) => false
    case DeleteOp(k) => k == j
    case ClearOp => true
  }

  ghost predicate SetSince<K, V>(capacity: nat, ops: seq<Op<K, V>>, s: nat, j: K) {
    && s < |ops| && ops[s].SetOp? && ops[s].key == j
    && forall t :: s < t < |ops| ==> !TakesAway(capacity, ops, t, j)
  }

  lemma PlaceIn<K, V>(es: Entries<K, V>, j: K) returns (p: int)
    requires DistinctKeys(es)
    ensures -1 <= p < |es| && (Lookup(es, j).Some? <==> p >= 0)
    ensures if p >= 0 then es[p].0 == j else forall i :: 0 <= i < |es| ==> es[i].0 != j
  {
    p := RemovedCases(es, j);
  }

  lemma LastRanked<K, V>(es: Entries<K, V>, rank: K -> int, j: K)
    requires es != [] && forall i, l :: 0 <= i < l < |es| ==> rank(es[i].0) > rank(es[l].0)
    ensures j == es[|es| - 1].0 <==>
      Lookup(es, j).Some? && forall i :: 0 <= i < |es| && es[i].0 != j ==> rank(j) < rank(es[i].0)
  {
    var p := PlaceIn(es, j);
    var n := |es| - 1;
    assert 0 <= p < n ==> rank(es[p].0) > rank(es[n].0);
  }

  /** The last key is the one not used for longest. */
  lemma LastKey<K, V>(ops: seq<Op<K, V>>, es: Entries<K, V>, j: K)
    requires ByRecency(ops, es) && es != []
    ensures j == es[|es| - 1].0 <==>
      Lookup(es, j).Some? && forall i :: 0 <= i < |es| && es[i].0 != j ==> LastUse(ops, j) < LastUse(ops, es[i].0)
  {
    LastRanked(es, k => LastUse(ops, k), j);
  }

  lemma TakesAwayMeans<K, V>(capacity: nat, ops: seq<Op<K, V>>, op: Op<K, V>, j: K)
    ensures var all, es := ops + [op], Run(capacity, ops);
      && Run(capacity, all) == Apply(capacity, es, op)
      && (Lookup(Run(capacity, all), j).Some? <==>
          (op.SetOp? && op.key == j) || (Lookup(es, j).Some? && !TakesAway(capacity, all, |ops|, j)))
  {
    var all, es := ops + [op], Run(capacity, ops);
    assert all[..|ops|] == ops;
    RunByRecency(capacity, ops);
    ApplyLookup(capacity, es, op, j);
    if es != [] { LastKey(ops, es, j); }
  }

  lemma {:induction false} TakesAwayBefore<K, V>(capacity: nat, ops: seq<Op<K, V>>, op: Op<K, V>, t: nat, j: K)
    requires t < |ops|
    ensures TakesAway(capacity, ops + [op], t, j) == TakesAway(capacity, ops, t, j)
  {
    assert (ops + [op])[..t] == ops[..t];
  }

  /**
   After any run a key is there exactly when it was set, and since then neither deleted, cleared nor evicted.
   */
  lemma {:induction false} PresentExactly<K, V>(capacity: nat, ops: seq<Op<K, V>>, j: K)
    ensures Lookup(Run(capacity, ops), j).Some? <==> exists s: nat :: SetSince(capacity, ops, s, j)
  {
    if ops != [] {
      var n := |ops| - 1;
      var before, op := ops[..n], ops[n];
      assert ops == before + [op];
      PresentExactly(capacity, before, j);
      TakesAwayMeans(capacity, before, op, j);
      forall t: nat | t < n ensures TakesAway(capacity, ops, t, j) == TakesAway(capacity, before, t, j) {
        TakesAwayBefore(capacity, before, op, t, j);
      }
      PresentStep(capacity, before, op, j);
    }
  }

  lemma {:induction false} PresentStep<K, V>(capacity: nat, before: seq<Op<K, V>>, op: Op<K, V>, j: K)
    requires forall t: nat :: t < |before| ==>
      TakesAway(capacity, before + [op], t, j) == TakesAway(capacity, before, t, j)
    ensures var ops, n := before + [op], |before|;
      (exists s: nat :: SetSince(capacity, ops, s, j)) <==>
        (op.SetOp? && op.key == j) ||
        ((exists s: nat :: SetSince(capacity, before, s, j)) && !TakesAway(capacity, ops, n, j))
  {
    var ops, n := before + [op], |before|;
    if op.SetOp? && op.key == j { assert SetSince(capacity, ops, n, j); }
    if s: nat :| SetSince(capacity, before, s, j) {
      if !TakesAway(capacity, ops, n, j) { assert SetSince(capacity, ops, s, j); }
    }
    if s: nat :| SetSince(capacity, ops, s, j) {
      if s < n { assert SetSince(capacity, before, s, j); }
    }
  }

  lemma {:induction false} RunBound<K, V>(capacity: nat, ops: seq<Op<K, V>>)
    ensures |Run(capacity, ops)| <= if capacity == 0 then 1 else capacity
  {
    if ops != [] {
      var n := |ops| - 1;
      RunBound(capacity, ops[..n]);
      RunByRecency(capacity, ops[..n]);
      if !ops[n].ClearOp? { var i := RemovedCases(Run(capacity, ops[..n]), ops[n].key); }
    }
  }

  /** The size stays within the capacity in every run exactly when the capacity is at least one. */
  lemma BoundedIffPositive<K, V>(capacity: nat, k: K, v: V)
    ensures capacity >= 1 <==> forall ops: seq<Op<K, V>> :: |Run(capacity, ops)| <= capacity
  {
    if capacity >= 1 {
      forall ops: seq<Op<K, V>> ensures |Run(capacity, ops)| <= capacity { RunBound(capacity, ops); }
    } else {
      assert Run(capacity, [SetOp(k, v)]) == [(k, v)];
    }
  }

  class ListNode<K, V> {
    const key: K
    var value: V
    var prev: ListNode?<K, V>
    var next: ListNode?<K, V>

    constructor (key: K, value: V)
      ensures this.key == key && this.value == value && prev == null && next == null
    {
      this.key, this.value := key, value;
      prev, next := null, null;
    }
  }

  ghost function At<K, V>(nodes: seq<ListNode<K, V>>, i: int): ListNode?<K, V> {
    if 0 <= i < |nodes| then nodes[i] else null
  }

  ghost predicate LinkedAt<K, V>(nodes: seq<ListNode<K, V>>, i: nat)
    requires i < |nodes|
    reads {nodes[i]}`prev, {nodes[i]}`next
  {
    nodes[i].prev == At(nodes, i - 1) && nodes[i].next == At(nodes, i + 1)
  }

  ghost predicate Distinct<T>(s: seq<T>) {
    forall i, j :: 0 <= i < j < |s| ==> s[i] != s[j]
  }

  ghost function EntriesOf<K, V>(nodes: seq<ListNode<K, V>>): (es: Entries<K, V>)
    reads nodes
    ensures |es| == |nodes|
    ensures forall i :: 0 <= i < |nodes| ==> es[i] == (nodes[i].key, nodes[i].value)
  {
    seq(|nodes|, i requires 0 <= i < |nodes| reads nodes => (nodes[i].key, nodes[i].value))
  }

  /** The dictionary holds exactly the nodes of the list, each under its key. */
  ghost predicate Indexes<K, V>(cache: map<K, ListNode<K, V>>, nodes: seq<ListNode<K, V>>) {
    && (forall i {:trigger Indexed(cache, nodes[i])} :: 0 <= i < |nodes| ==> Indexed(cache, nodes[i]))
    && (forall k {:trigger Listed(cache, nodes, k)} :: k in cache ==> Listed(cache, nodes, k))
  }

  ghost predicate Indexed<K, V>(cache: map<K, ListNode<K, V>>, node: ListNode<K, V>) {
    node.key in cache && cache[node.key] == node
  }

  ghost predicate Listed<K, V>(cache: map<K, ListNode<K, V>>, nodes: seq<ListNode<K, V>>, k: K)
    requires k in cache
  {
    cache[k] in nodes && cache[k].key == k
  }

  ghost function PlaceOf<K, V>(cache: map<K, ListNode<K, V>>, nodes: seq<ListNode<K, V>>, k: K): (i: nat)
    requires Indexes(cache, nodes) && k in cache
    ensures i < |nodes| && nodes[i] == cache[k] && nodes[i].key == k
  {
    assert Listed(cache, nodes, k);
    var i :| 0 <= i < |nodes| && nodes[i] == cache[k];
    i
  }

  lemma IndexesMoved<K, V>(cache: map<K, ListNode<K, V>>, nodes: seq<ListNode<K, V>>, i: nat)
    requires Indexes(cache, nodes) && i < |nodes|
    ensures Indexes(cache, [nodes[i]] + Without(nodes, i))
  {
    var moved := [nodes[i]] + Without(nodes, i);
    forall j | 0 <= j < |moved| ensures Indexed(cache, moved[j]) {
      var h := if j == 0 then i else if j <= i then j - 1 else j;
      assert moved[j] == nodes[h] && Indexed(cache, nodes[h]);
    }
    forall k | k in cache ensures Listed(cache, moved, k) {
      var j := PlaceOf(cache, nodes, k);
      assert moved[if j == i then 0 else if j < i then j + 1 else j] == cache[k];
    }
  }

  lemma IndexesDropped<K, V>(cache: map<K, ListNode<K, V>>, nodes: seq<ListNode<K, V>>, i: nat)
    requires Indexes(cache, nodes) && i < |nodes| && Distinct(nodes)
    ensures nodes[i].key in cache && Indexes(cache - {nodes[i].key}, Without(nodes, i))
  {
    var rest, kept := cache - {nodes[i].key}, Without(nodes, i);
    assert Indexed(cache, nodes[i]);
    forall j | 0 <= j < |kept| ensures Indexed(rest, kept[j]) {
      var h := if j < i then j else j + 1;
      assert kept[j] == nodes[h] && nodes[h] != nodes[i] && Indexed(cache, nodes[h]);
    }
    forall k | k in rest ensures Listed(rest, kept, k) {
      var j := PlaceOf(cache, nodes, k);
      assert kept[if j < i then j else j - 1] == cache[k];
    }
  }

  lemma IndexesAdded<K, V>(cache: map<K, ListNode<K, V>>, nodes: seq<ListNode<K, V>>, node: ListNode<K, V>)
    requires Indexes(cache, nodes) && node.key !in cache
    ensures Indexes(cache[node.key := node], [node] + nodes) && node !in nodes
  {
    var more, all := cache[node.key := node], [node] + nodes;
    forall j | 0 <= j < |nodes| ensures nodes[j] != node && Indexed(more, nodes[j]) { assert Indexed(cache, nodes[j]); }
    forall j | 0 <= j < |all| ensures Indexed(more, all[j]) {
      if j > 0 { assert all[j] == nodes[j - 1]; }
    }
    forall k | k in more ensures Listed(more, all, k) {
      if k == node.key {
        assert all[0] == node;
      } else {
        assert all[PlaceOf(cache, nodes, k) + 1] == cache[k];
      }
    }
  }

  lemma EmptyIndex<K, V>(cache: map<K, ListNode<K, V>>)
    requires Indexes(cache, [])
    ensures |cache| == 0
  {
    if k :| k in cache {
      var i := PlaceOf(cache, [], k);
    }
  }

  lemma {:induction false} KeysCount<K, V>(cache: map<K, ListNode<K, V>>, nodes: seq<ListNode<K, V>>)
    requires Indexes(cache, nodes) && Distinct(nodes)
    ensures |cache| == |nodes|
    decreases nodes
  {
    if nodes == [] {
      EmptyIndex(cache);
    } else {
      var k := nodes[0].key;
      IndexesDropped(cache, nodes, 0);
      assert Without(nodes, 0) == nodes[1..];
      KeysCount(cache - {k}, nodes[1..]);
      assert cache.Keys == (cache - {k}).Keys + {k};
    }
  }

  lemma NotWithout<T>(s: seq<T>, i: nat)
    requires i < |s| && Distinct(s)
    ensures s[i] !in Without(s, i)
  {}

  lemma EntriesMoved<K, V>(nodes: seq<ListNode<K, V>>, i: nat)
    requires i < |nodes|
    ensures EntriesOf([nodes[i]] + Without(nodes, i)) == [(nodes[i].key, nodes[i].value)] + Without(EntriesOf(nodes), i)
  {
    EntriesWithout(nodes, i);
    EntriesAdded(nodes[i], Without(nodes, i));
  }

  lemma EntriesWithout<K, V>(nodes: seq<ListNode<K, V>>, i: nat)
    requires i < |nodes|
    ensures EntriesOf(Without(nodes, i)) == Without(EntriesOf(nodes), i)
  {}

  lemma EntriesAdded<K, V>(node: ListNode<K, V>, nodes: seq<ListNode<K, V>>)
    ensures EntriesOf([node] + nodes) == [(node.key, node.value)] + EntriesOf(nodes)
  {}

  class BoundedMap<K(==), V> {
    const maxCapacity: nat
    var cache: map<K, ListNode<K, V>>
    var head: ListNode?<K, V>
    var tail: ListNode?<K, V>
    ghost var nodes: seq<ListNode<K, V>>

    /** The list is well formed: nodes are distinct and each points at its neighbours. */
    ghost predicate ListOk()
      reads this, nodes
    {
      && Distinct(nodes)
      && head == At(nodes, 0) && tail == At(nodes, |nodes| - 1)
      && (forall i :: 0 <= i < |nodes| ==> LinkedAt(nodes, i))
    }

    ghost predicate Valid()
      reads this, nodes
    {
      ListOk() && Indexes(cache, nodes)
    }

    constructor (maxCapacity: nat)
      ensures Valid() && nodes == [] && this.maxCapacity == maxCapacity
    {
      this.maxCapacity := maxCapacity;
      cache := map[];
      head, tail := null, null;
      nodes := [];
    }

    method AddToHead(node: ListNode<K, V>)
      requires ListOk() && node !in nodes
      modifies this`head, this`tail, this`nodes, node`prev, node`next, (set n | n in nodes)`prev
      ensures ListOk() && nodes == [node] + old(nodes)
    {
      node.next := head;
      node.prev := null;
      if head != null {
        head.prev := node;
      }
      head := node;
      if tail == null {
        tail := node;
      }
      nodes := [node] + nodes;
      forall i | 0 <= i < |nodes| ensures LinkedAt(nodes, i) {
        if i > 0 { assert old(LinkedAt(nodes, i - 1)); }
      }
    }

    method RemoveNode(node: ListNode<K, V>, ghost i: nat)
      requires ListOk() && i < |nodes| && nodes[i] == node
      modifies this`head, this`tail, this`nodes, (set n | n in nodes)`prev, (set n | n in nodes)`next
      ensures ListOk() && nodes == Without(old(nodes), i)
    {
      assert LinkedAt(nodes, i);
      if node.prev != null {
        node.prev.next := node.next;
      } else {
        head := node.next;
      }
      if node.next != null {
        node.next.prev := node.prev;
      } else {
        tail := node.prev;
      }
      nodes := Without(nodes, i);
      forall j | 0 <= j < |nodes| ensures LinkedAt(nodes, j) {
        assert old(LinkedAt(nodes, if j < i then j else j + 1));
      }
    }

    ghost function Contents(): Entries<K, V>
      reads this, nodes
    {
      EntriesOf(nodes)
    }

    lemma ContentsLookup(k: K)
      requires Valid()
      ensures DistinctKeys(Contents())
      ensures k in cache ==> Lookup(Contents(), k) == Some(cache[k].value)
      ensures k in cache ==> Removed(Contents(), k) == Without(Contents(), PlaceOf(cache, nodes, k))
      ensures k !in cache ==> Lookup(Contents(), k) == None && Removed(Contents(), k) == Contents()
    {
      var es := Contents();
      forall i, j | 0 <= i < j < |es| ensures es[i].0 != es[j].0 {
        assert Indexed(cache, nodes[i]) && Indexed(cache, nodes[j]);
      }
      if k in cache {
        LookupAt(es, k, PlaceOf(cache, nodes, k));
      } else {
        forall i | 0 <= i < |es| ensures es[i].0 != k { assert Indexed(cache, nodes[i]); }
        LookupMissing(es, k);
      }
    }

    method Has(key: K) returns (found: bool)
      requires Valid()
      ensures found <==> Lookup(Contents(), key).Some?
    {
      ContentsLookup(key);
      found := key in cache;
    }

    method MoveToHead(node: ListNode<K, V>, ghost i: nat)
      requires Valid() && i < |nodes| && nodes[i] == node
      modifies this`head, this`tail, this`nodes, (set n | n in nodes)`prev, (set n | n in nodes)`next
      ensures Valid() && nodes == [node] + Without(old(nodes), i)
      ensures Contents() == [(node.key, node.value)] + Without(old(Contents()), i)
    {
      IndexesMoved(cache, nodes, i);
      NotWithout(nodes, i);
      RemoveNode(node, i);
      AddToHead(node);
      assert EntriesOf(old(nodes)) == old(Contents());
      EntriesMoved(old(nodes), i);
    }

    method Get(key: K) returns (value: Option<V>)
      requires Valid()
      modifies this`head, this`tail, this`nodes, (set n | n in nodes)`prev, (set n | n in nodes)`next
      ensures Valid() && value == Lookup(old(Contents()), key)
      ensures Contents() == GetSpec(old(Contents()), key)
    {
      ContentsLookup(key);
      if key in cache {
        var node := cache[key];
        ghost var i := PlaceOf(cache, nodes, key);
        MoveToHead(node, i);
        return Some(node.value);
      }
      return None;
    }

    method Clear()
      modifies this`cache, this`head, this`tail, this`nodes
      ensures Valid() && Contents() == []
    {
      cache := map[];
      head, tail := null, null;
      nodes := [];
    }

    /** A node leaves the list and the dictionary. */
    method Unfile(node: ListNode<K, V>, ghost i: nat)
      requires Valid() && i < |nodes| && nodes[i] == node
      modifies this`cache, this`head, this`tail, this`nodes, (set n | n in nodes)`prev, (set n | n in nodes)`next
      ensures Valid() && Contents() == Without(old(Contents()), i)
    {
      IndexesDropped(cache, nodes, i);
      RemoveNode(node, i);
      cache := cache - {node.key};
      assert EntriesOf(old(nodes)) == old(Contents());
      EntriesWithout(old(nodes), i);
    }

    method Delete(key: K) returns (existed: bool)
      requires Valid()
      modifies this`cache, this`head, this`tail, this`nodes, (set n | n in nodes)`prev, (set n | n in nodes)`next
      ensures Valid() && Contents() == Removed(old(Contents()), key)
      ensures existed <==> Lookup(old(Contents()), key).Some?
    {
      ContentsLookup(key);
      if key in cache {
        var node := cache[key];
        ghost var i := PlaceOf(cache, nodes, key);
        Unfile(node, i);
        return true;
      }
      return false;
    }

    /** Eviction removes the last entry of the list, if there is one. */
    method Evict()
      requires Valid()
      modifies this`cache, this`head, this`tail, this`nodes, (set n | n in nodes)`prev, (set n | n in nodes)`next
      ensures Valid() && Contents() == if old(Contents()) == [] then [] else old(Contents())[..|old(Contents())| - 1]
      ensures forall n :: n in nodes ==> n in old(nodes)
      ensures cache.Keys <= old(cache.Keys)
    {
      if tail != null {
        ghost var i := |nodes| - 1;
        IndexesDropped(cache, nodes, i);
        cache := cache - {tail.key};
        RemoveNode(tail, i);
        assert EntriesOf(old(nodes)) == old(Contents());
        EntriesWithout(old(nodes), i);
      }
    }

    method Set(key: K, value: V)
      requires Valid()
      modifies this, nodes
      ensures Valid() && Contents() == SetSpec(maxCapacity, old(Contents()), key, value)
      ensures forall n :: n in nodes ==> n in old(nodes) || fresh(n)
    {
      ContentsLookup(key);
      if key in cache {
        Overwrite(cache[key], value, PlaceOf(cache, nodes, key));
      } else {
        SetNew(key, value);
      }
    }

    /** Setting a key that is not there: in front, after the last entry of a full list has gone. */
    method SetNew(key: K, value: V)
      requires Valid() && key !in cache
      modifies this`cache, this`head, this`tail, this`nodes, (set n | n in nodes)`prev, (set n | n in nodes)`next
      ensures Valid()
      ensures var es := old(Contents());
        Contents() == [(key, value)] + if |es| >= maxCapacity && es != [] then es[..|es| - 1] else es
      ensures forall n :: n in nodes ==> n in old(nodes) || fresh(n)
    {
      CacheSize();
      if |cache| >= maxCapacity {
        Evict();
      }
      Insert(key, value);
    }

    /** Setting a key that is there: the new value, in front. */
    method Overwrite(node: ListNode<K, V>, value: V, ghost i: nat)
      requires Valid() && i < |nodes| && nodes[i] == node
      modifies this`head, this`tail, this`nodes, nodes
      ensures Valid() && Contents() == [(node.key, value)] + Without(old(Contents()), i)
      ensures forall n :: n in nodes ==> n in old(nodes)
    {
      node.value := value;
      assert Without(Contents(), i) == Without(old(Contents()), i);
      MoveToHead(node, i);
    }

    method Insert(key: K, value: V)
      requires Valid() && key !in cache
      modifies this`cache, this`head, this`tail, this`nodes, (set n | n in nodes)`prev
      ensures Valid() && Contents() == [(key, value)] + old(Contents())
      ensures forall n :: n in nodes ==> n in old(nodes) || fresh(n)
    {
      var newNode := new ListNode(key, value);
      IndexesAdded(cache, nodes, newNode);
      cache := cache[key := newNode];
      AddToHead(newNode);
      assert EntriesOf(old(nodes)) == old(Contents());
      EntriesAdded(newNode, old(nodes));
    }

    /** The size that the dictionary reports is the length of the list. */
    lemma CacheSize()
      requires Valid()
      ensures |cache| == |nodes|
    {
      KeysCount(cache, nodes);
    }
  }
}
