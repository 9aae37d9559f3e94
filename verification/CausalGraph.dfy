/**
 The causal graph of forensic records: nodes by record identifier, candidate
 children through the three indexes, and the edges that survive the relation.
 */
module CausalGraph {
  import opened Options

  datatype Kind = Process | Network | File

  // A parent pid that is not a number is None; a port only counts as set or not set.
  datatype ForensicRecord = ForensicRecord(pid: int, ppid: Option<int>, syscall: string, timestamp: string,
                                           path: Option<string>, hasPort: bool)
  datatype Node = Node(id: string, kind: Kind, record: ForensicRecord)

  predicate HasPath(r: ForensicRecord) { r.path.Some? && r.path.value != "" }

  function RecordId(r: ForensicRecord, show: int -> string): string {
    show(r.pid) + "-" + r.timestamp + "-" + r.syscall
  }

  function DetermineType(r: ForensicRecord): Kind {
    if r.syscall == "connect" || r.hasPort then Network
    else if HasPath(r) || r.syscall == "openat" then File
    else Process
  }

  /** Comparing an unreadable date is false in either direction. */
  predicate Earlier(a: Option<int>, b: Option<int>) { a.Some? && b.Some? && a.value < b.value }

  predicate IsCausallyRelated(parent: Node, child: Node, date: string -> Option<int>) {
    if Earlier(date(child.record.timestamp), date(parent.record.timestamp)) then false
    else if Some(parent.record.pid) == child.record.ppid then true
    else if parent.kind == Process && child.kind == Network && parent.record.pid == child.record.pid then true
    else parent.kind == File && child.kind == Process && parent.record.path == child.record.path
  }

  // ----- nodes -----

  function NodeOf(r: ForensicRecord, show: int -> string): Node { Node(RecordId(r, show), DetermineType(r), r) }

  ghost predicate IsNodes(nodes: seq<Node>, show: int -> string) {
    (forall i :: 0 <= i < |nodes| ==> nodes[i] == NodeOf(nodes[i].record, show)) &&
    (forall i, j :: 0 <= i < j < |nodes| ==> nodes[i].id != nodes[j].id)
  }

  /** Record k is the one a node was made of: no earlier record has its identifier. */
  ghost predicate Founds(records: seq<ForensicRecord>, k: int, show: int -> string) {
    0 <= k < |records| &&
    forall m :: 0 <= m < k ==> RecordId(records[m], show) != RecordId(records[k], show)
  }

  ghost predicate MadeFrom(n: Node, records: seq<ForensicRecord>, show: int -> string) {
    exists k :: Founds(records, k, show) && records[k] == n.record
  }

  ghost predicate Represented(nodes: seq<Node>, id: string) {
    exists i :: 0 <= i < |nodes| && nodes[i].id == id
  }

  // ----- identifiers -----

  lemma {:induction false} FirstDash(a: string, s: string, b: string, t: string)
    requires '-' !in a && '-' !in b && a + "-" + s == b + "-" + t
    ensures a == b && s == t
  {
    var x, y := a + "-" + s, b + "-" + t;
    assert x[|a|] == '-' && forall i :: 0 <= i < |a| ==> x[i] == a[i];
    assert y[|b|] == '-' && forall i :: 0 <= i < |b| ==> y[i] == b[i];
    assert |a| == |b|;
    assert x[..|a|] == a && y[..|b|] == b && x[|a| + 1..] == s && y[|b| + 1..] == t;
  }

  lemma {:induction false} LastDash(s: string, a: string, t: string, b: string)
    requires '-' !in a && '-' !in b && s + "-" + a == t + "-" + b
    ensures a == b && s == t
  {
    var x, y := s + "-" + a, t + "-" + b;
    assert x[|s|] == '-' && forall i :: |s| < i < |x| ==> x[i] == a[i - |s| - 1];
    assert y[|t|] == '-' && forall i :: |t| < i < |y| ==> y[i] == b[i - |t| - 1];
    assert |s| == |t|;
    assert x[..|s|] == s && y[..|t|] == t && x[|s| + 1..] == a && y[|t| + 1..] == b;
  }

  /** Where pids and system calls are written without a dash, one identifier is one pid, one time and one call. */
  lemma IdExactly(r: ForensicRecord, q: ForensicRecord, show: int -> string)
    requires '-' !in show(r.pid) && '-' !in show(q.pid) && '-' !in r.syscall && '-' !in q.syscall
    ensures RecordId(r, show) == RecordId(q, show) <==>
      show(r.pid) == show(q.pid) && r.timestamp == q.timestamp && r.syscall == q.syscall
  {
    if RecordId(r, show) == RecordId(q, show) {
      var s, t := r.timestamp + "-" + r.syscall, q.timestamp + "-" + q.syscall;
      assert RecordId(r, show) == show(r.pid) + "-" + s && RecordId(q, show) == show(q.pid) + "-" + t;
      FirstDash(show(r.pid), s, show(q.pid), t);
      LastDash(r.timestamp, r.syscall, q.timestamp, q.syscall);
    }
  }

  /** With a dash in the system call, records of different times and calls share an identifier. */
  lemma DashCollides(r: ForensicRecord, q: ForensicRecord, show: int -> string, x: string, y: string, z: string)
    requires r.pid == q.pid && r.timestamp == x && r.syscall == y + "-" + z
    requires q.timestamp == x + "-" + y && q.syscall == z
    ensures RecordId(r, show) == RecordId(q, show) && r.timestamp != q.timestamp
  {
    assert show(r.pid) + "-" + x + "-" + (y + "-" + z) == show(r.pid) + "-" + (x + "-" + y) + "-" + z;
    assert |q.timestamp| > |x|;
  }

  // ----- nodes from records -----

  /** One node per identifier, made from the first record that has it. */
  method BuildNodes(records: seq<ForensicRecord>, show: int -> string) returns (nodes: seq<Node>)
    ensures IsNodes(nodes, show)
    ensures forall i :: 0 <= i < |nodes| ==> MadeFrom(nodes[i], records, show)
    ensures forall k :: 0 <= k < |records| ==> Represented(nodes, RecordId(records[k], show))
  {
    nodes := [];
    var ids: set<string> := {};
    for k := 0 to |records|
      invariant IsNodes(nodes, show)
      invariant forall id :: id in ids <==> Represented(nodes, id)
      invariant forall i :: 0 <= i < |nodes| ==> MadeFrom(nodes[i], records, show)
      invariant forall m :: 0 <= m < k ==> RecordId(records[m], show) in ids
    {
      var id := RecordId(records[k], show);
      if id !in ids {
        var node := NodeOf(records[k], show);
        assert Founds(records, k, show);
        RepresentedNext(nodes, node);
        nodes, ids := nodes + [node], ids + {id};
      }
    }
  }

  lemma RepresentedNext(nodes: seq<Node>, n: Node)
    ensures forall id :: Represented(nodes + [n], id) <==> Represented(nodes, id) || id == n.id
  {
    forall id ensures Represented(nodes + [n], id) <==> Represented(nodes, id) || id == n.id {
      assert (nodes + [n])[|nodes|] == n;
      if Represented(nodes, id) {
        var i :| 0 <= i < |nodes| && nodes[i].id == id;
        assert (nodes + [n])[i].id == id;
      }
    }
  }

  // ----- indexes -----

  /** The nodes filed under a key, in node order. */
  function Filed<K>(index: map<K, seq<nat>>, k: K): seq<nat> { if k in index then index[k] else [] }

  function Push<K>(index: map<K, seq<nat>>, k: K, j: nat): map<K, seq<nat>> { index[k := Filed(index, k) + [j]] }

  /** An index over the nodes whose keys are given: a node without a key is not filed. */
  ghost predicate IsIndex<K(!new)>(index: map<K, seq<nat>>, keys: seq<Option<K>>) {
    forall k, j: nat :: j in Filed(index, k) <==> j < |keys| && keys[j] == Some(k)
  }

  lemma FiledAt<K(!new)>(index: map<K, seq<nat>>, keys: seq<Option<K>>, k: K, j: nat)
    requires IsIndex(index, keys)
    ensures j in Filed(index, k) <==> j < |keys| && keys[j] == Some(k)
  {}

  lemma PushKeeps<K(!new)>(index: map<K, seq<nat>>, keys: seq<Option<K>>, key: Option<K>)
    requires IsIndex(index, keys)
    ensures IsIndex(if key.Some? then Push(index, key.value, |keys|) else index, keys + [key])
  {
    var next := if key.Some? then Push(index, key.value, |keys|) else index;
    forall k, j: nat ensures j in Filed(next, k) <==> j < |keys + [key]| && (keys + [key])[j] == Some(k) {
      assert Filed(next, k) == Filed(index, k) + if key == Some(k) then [|keys|] else [];
      FiledAt(index, keys, k, j);
      assert j < |keys| ==> (keys + [key])[j] == keys[j];
    }
  }

  lemma EmptyIndex<K(!new)>(index: map<K, seq<nat>>)
    requires index == map[]
    ensures IsIndex(index, [])
  {
    assert forall k :: Filed(index, k) == [];
  }

  function PpidKey(n: Node): Option<int> { n.record.ppid }
  function PidKey(n: Node): Option<int> { Some(n.record.pid) }
  function PathKey(n: Node): Option<string> {
    if n.kind == Process && HasPath(n.record) then n.record.path else None
  }

  function Keys<K>(nodes: seq<Node>, key: Node -> Option<K>): seq<Option<K>> {
    seq(|nodes|, i requires 0 <= i < |nodes| => key(nodes[i]))
  }

  lemma FiledMeaning<K(!new)>(index: map<K, seq<nat>>, nodes: seq<Node>, key: Node -> Option<K>, k: K)
    requires IsIndex(index, Keys(nodes, key))
    ensures forall j: nat :: j in Filed(index, k) <==> j < |nodes| && key(nodes[j]) == Some(k)
  {
    forall j: nat ensures j in Filed(index, k) <==> j < |nodes| && key(nodes[j]) == Some(k) {
      var keys := Keys(nodes, key);
      FiledAt(index, keys, k, j);
      if j < |keys| { assert keys[j] == key(nodes[j]); }
    }
  }

  lemma KeysNext<K>(nodes: seq<Node>, i: nat, key: Node -> Option<K>)
    requires i < |nodes|
    ensures Keys(nodes[..i + 1], key) == Keys(nodes[..i], key) + [key(nodes[i])]
  {}

  method BuildIndexes(nodes: seq<Node>)
    returns (ppids: map<int, seq<nat>>, pids: map<int, seq<nat>>, paths: map<string, seq<nat>>)
    ensures IsIndex(ppids, Keys(nodes, PpidKey)) && IsIndex(pids, Keys(nodes, PidKey))
    ensures IsIndex(paths, Keys(nodes, PathKey))
  {
    ppids, pids, paths := map[], map[], map[];
    EmptyIndex(ppids);
    EmptyIndex(pids);
    EmptyIndex(paths);
    assert Keys(nodes[..0], PpidKey) == [] && Keys(nodes[..0], PidKey) == [] && Keys(nodes[..0], PathKey) == [];
    for i := 0 to |nodes|
      invariant IsIndex(ppids, Keys(nodes[..i], PpidKey)) && IsIndex(pids, Keys(nodes[..i], PidKey))
      invariant IsIndex(paths, Keys(nodes[..i], PathKey))
    {
      var n := nodes[i];
      KeysNext(nodes, i, PpidKey);
      KeysNext(nodes, i, PidKey);
      KeysNext(nodes, i, PathKey);
      PushKeeps(ppids, Keys(nodes[..i], PpidKey), PpidKey(n));
      PushKeeps(pids, Keys(nodes[..i], PidKey), PidKey(n));
      PushKeeps(paths, Keys(nodes[..i], PathKey), PathKey(n));
      if n.record.ppid.Some? { ppids := Push(ppids, n.record.ppid.value, i); }
      pids := Push(pids, n.record.pid, i);
      if n.kind == Process && HasPath(n.record) { paths := Push(paths, n.record.path.value, i); }
    }
    assert nodes[..|nodes|] == nodes;
  }

  // ----- candidates -----

  ghost predicate NoDuplicates<T>(s: seq<T>) { forall i, j :: 0 <= i < j < |s| ==> s[i] != s[j] }

  /** What the three lookups offer as children of a node. */
  ghost predicate Candidate(parent: Node, child: Node) {
    child.record.ppid == Some(parent.record.pid) ||
    (parent.kind == Process && child.kind != Process && child.record.pid == parent.record.pid) ||
    (parent.kind == File && HasPath(parent.record) && PathKey(child) == parent.record.path)
  }

  /** Adds to an insertion-ordered set the listed nodes that are kept. */
  method AddAll(set0: seq<nat>, more: seq<nat>, keep: nat -> bool) returns (r: seq<nat>)
    requires NoDuplicates(set0)
    ensures NoDuplicates(r) && forall j: nat :: j in r <==> j in set0 || (j in more && keep(j))
  {
    r := set0;
    for k := 0 to |more|
      invariant NoDuplicates(r) && forall j: nat :: j in r <==> j in set0 || (j in more[..k] && keep(j))
    {
      if keep(more[k]) && more[k] !in r { r := r + [more[k]]; }
    }
  }

  method Candidates(nodes: seq<Node>, i: nat,
                    ppids: map<int, seq<nat>>, pids: map<int, seq<nat>>, paths: map<string, seq<nat>>)
    returns (r: seq<nat>)
    requires i < |nodes|
    requires IsIndex(ppids, Keys(nodes, PpidKey)) && IsIndex(pids, Keys(nodes, PidKey))
    requires IsIndex(paths, Keys(nodes, PathKey))
    ensures NoDuplicates(r) && forall j: nat :: j in r <==> j < |nodes| && Candidate(nodes[i], nodes[j])
  {
    var node := nodes[i];
    FiledMeaning(ppids, nodes, PpidKey, node.record.pid);
    FiledMeaning(pids, nodes, PidKey, node.record.pid);
    r := AddAll([], Filed(ppids, node.record.pid), (j: nat) => true);
    if node.kind == Process {
      r := AddAll(r, Filed(pids, node.record.pid), (j: nat) => j < |nodes| && nodes[j].kind != Process);
    }
    if node.kind == File && HasPath(node.record) {
      FiledMeaning(paths, nodes, PathKey, node.record.path.value);
      r := AddAll(r, Filed(paths, node.record.path.value), (j: nat) => true);
    }
  }

  // ----- edges -----

  /** A related pair that the indexes do not offer. */
  ghost predicate Missed(parent: Node, child: Node) {
    parent.kind == File && !HasPath(parent.record) && child.kind == Process &&
    child.record.path == parent.record.path && child.record.ppid != Some(parent.record.pid)
  }

  /** The edges the graph should have: ordered pairs of distinct related nodes. */
  ghost predicate Related(nodes: seq<Node>, i: nat, j: nat, date: string -> Option<int>) {
    i < |nodes| && j < |nodes| && i != j && IsCausallyRelated(nodes[i], nodes[j], date)
  }

  ghost predicate Edge(nodes: seq<Node>, i: nat, j: nat, date: string -> Option<int>) {
    Related(nodes, i, j, date) && Candidate(nodes[i], nodes[j])
  }

  lemma EdgeExactly(nodes: seq<Node>, i: nat, j: nat, show: int -> string, date: string -> Option<int>)
    requires IsNodes(nodes, show) && i < |nodes| && j < |nodes|
    ensures Edge(nodes, i, j, date) <==> Related(nodes, i, j, date) && !Missed(nodes[i], nodes[j])
  {
    assert nodes[i] == NodeOf(nodes[i].record, show) && nodes[j] == NodeOf(nodes[j].record, show);
  }

  /** A record with a path is never a process, so the path index stays empty and its lookup finds nothing. */
  lemma PathIndexEmpty(paths: map<string, seq<nat>>, nodes: seq<Node>, show: int -> string, path: string)
    requires IsNodes(nodes, show) && IsIndex(paths, Keys(nodes, PathKey))
    ensures forall j: nat :: j !in Filed(paths, path)
  {
    FiledMeaning(paths, nodes, PathKey, path);
    forall j: nat ensures j !in Filed(paths, path) {
      if j < |nodes| { assert nodes[j] == NodeOf(nodes[j].record, show); }
    }
  }

  /**
   What is left, in terms of the records: unless both dates can be read and the child's is earlier, a record is
   linked to one that names its pid as parent; and one that is no network event, opens no file and has no path is
   linked to the network events of its pid.
   */
  lemma EdgesAre(nodes: seq<Node>, i: nat, j: nat, show: int -> string, date: string -> Option<int>)
    requires IsNodes(nodes, show) && i < |nodes| && j < |nodes|
    ensures var parent, child := nodes[i].record, nodes[j].record;
      var before, after := date(parent.timestamp), date(child.timestamp);
      Edge(nodes, i, j, date) <==>
        && i != j && !(before.Some? && after.Some? && after.value < before.value)
        && (child.ppid == Some(parent.pid) ||
            (parent.syscall != "connect" && !parent.hasPort && parent.syscall != "openat" &&
             (parent.path == None || parent.path == Some("")) &&
             (child.syscall == "connect" || child.hasPort) && child.pid == parent.pid))
  {
    assert nodes[i] == NodeOf(nodes[i].record, show) && nodes[j] == NodeOf(nodes[j].record, show);
  }

  /** The identifiers of the nodes before `upto` with an edge to node j, in node order. */
  ghost function ParentIds(nodes: seq<Node>, upto: nat, j: nat, date: string -> Option<int>): seq<string>
    requires upto <= |nodes|
  {
    if upto == 0 then []
    else ParentIds(nodes, upto - 1, j, date) + EdgeId(nodes, upto - 1, j, date)
  }

  ghost function EdgeId(nodes: seq<Node>, i: nat, j: nat, date: string -> Option<int>): seq<string>
    requires i < |nodes|
  {
    if Edge(nodes, i, j, date) then [nodes[i].id] else []
  }

  /** A list holds, each once, exactly the identifiers of the children of node i. */
  ghost predicate ChildrenOf(nodes: seq<Node>, i: nat, list: seq<string>, date: string -> Option<int>) {
    NoDuplicates(list) && (forall id :: id in list ==> Represented(nodes, id)) &&
    (forall j: nat :: j < |nodes| ==> (nodes[j].id in list <==> Edge(nodes, i, j, date)))
  }

  /** The edges out of the first `upto` nodes are in place. */
  ghost predicate Connected(nodes: seq<Node>, children: seq<seq<string>>, parents: seq<seq<string>>,
                            upto: nat, date: string -> Option<int>)
  {
    |children| == |parents| == |nodes| && upto <= |nodes| &&
    (forall a :: 0 <= a < upto ==> ChildrenOf(nodes, a, children[a], date)) &&
    (forall a :: upto <= a < |nodes| ==> children[a] == []) &&
    (forall j :: 0 <= j < |nodes| ==> parents[j] == ParentIds(nodes, upto, j, date))
  }

  class CausalGraph {
    var nodes: seq<Node>
    var children: seq<seq<string>>
    var parents: seq<seq<string>>

    /** The whole reconstruction from the selected records. */
    constructor (records: seq<ForensicRecord>, show: int -> string, date: string -> Option<int>)
      ensures IsNodes(nodes, show)
      ensures forall i :: 0 <= i < |nodes| ==> MadeFrom(nodes[i], records, show)
      ensures forall k :: 0 <= k < |records| ==> Represented(nodes, RecordId(records[k], show))
      ensures Connected(nodes, children, parents, |nodes|, date)
    {
      var built := BuildNodes(records, show);
      nodes := built;
      children := seq(|built|, i => []);
      parents := seq(|built|, i => []);
      new;
      Connect(show, date);
    }

    method Connect(ghost show: int -> string, date: string -> Option<int>)
      requires IsNodes(nodes, show) && Connected(nodes, children, parents, 0, date)
      modifies this`children, this`parents
      ensures Connected(nodes, children, parents, |nodes|, date)
    {
      var all := nodes;
      var ppids, pids, paths := BuildIndexes(all);
      for i := 0 to |all|
        invariant Connected(all, children, parents, i, date)
      {
        var candidates := Candidates(all, i, ppids, pids, paths);
        Link(i, candidates, show, date);
      }
    }

    method Link(i: nat, candidates: seq<nat>, ghost show: int -> string, date: string -> Option<int>)
      requires IsNodes(nodes, show) && i < |nodes| && Connected(nodes, children, parents, i, date)
      requires NoDuplicates(candidates)
      requires forall j: nat :: j in candidates <==> j < |nodes| && Candidate(nodes[i], nodes[j])
      modifies this`children, this`parents
      ensures Connected(nodes, children, parents, i + 1, date)
    {
      ghost var parents0 := parents;
      for k := 0 to |candidates|
        invariant Linked(nodes, i, candidates[..k], children, old(children), parents, parents0, date)
      {
        var c := candidates[k];
        assert c in candidates;
        LinkNext(nodes, i, candidates, k, children, old(children), parents, parents0, show, date);
        if i != c && IsCausallyRelated(nodes[i], nodes[c], date) {
          children := children[i := children[i] + [nodes[c].id]];
          parents := parents[c := parents[c] + [nodes[i].id]];
        }
      }
      assert candidates[..|candidates|] == candidates;
      LinkedAll(nodes, i, candidates, children, old(children), parents, parents0, date);
    }
  }

  /** The candidates in `done` have been looked at for node i. */
  ghost predicate Linked(nodes: seq<Node>, i: nat, done: seq<nat>, children: seq<seq<string>>,
                         children0: seq<seq<string>>,
                         parents: seq<seq<string>>, parents0: seq<seq<string>>, date: string -> Option<int>)
  {
    |children| == |children0| == |parents| == |parents0| == |nodes| && i < |nodes| &&
    SomeChildren(nodes, i, done, children[i], date) && children == children0[i := children[i]] &&
    (forall j :: 0 <= j < |nodes| ==> parents[j] == parents0[j] + if j in done then EdgeId(nodes, i, j, date) else [])
  }

  ghost predicate SomeChildren(nodes: seq<Node>, i: nat, done: seq<nat>, list: seq<string>,
                               date: string -> Option<int>)
  {
    NoDuplicates(list) && (forall id :: id in list ==> Represented(nodes, id)) &&
    (forall j: nat :: j < |nodes| ==> (nodes[j].id in list <==> j in done && Edge(nodes, i, j, date)))
  }

  lemma SomeChildrenNext(nodes: seq<Node>, i: nat, done: seq<nat>, list: seq<string>, c: nat,
                         show: int -> string, date: string -> Option<int>)
    requires IsNodes(nodes, show) && SomeChildren(nodes, i, done, list, date) && c < |nodes| && c !in done
    ensures SomeChildren(nodes, i, done + [c], if Edge(nodes, i, c, date) then list + [nodes[c].id] else list, date)
  {
    assert nodes[c].id !in list;
    forall j: nat | j < |nodes| && j != c ensures nodes[j].id != nodes[c].id {
      if j < c { assert nodes[j].id != nodes[c].id; } else { assert nodes[c].id != nodes[j].id; }
    }
  }

  lemma LinkNext(nodes: seq<Node>, i: nat, candidates: seq<nat>, k: nat,
                 children: seq<seq<string>>, children0: seq<seq<string>>,
                 parents: seq<seq<string>>, parents0: seq<seq<string>>,
                 show: int -> string, date: string -> Option<int>)
    requires IsNodes(nodes, show) && k < |candidates| && NoDuplicates(candidates) && candidates[k] < |nodes|
    requires i < |nodes| && Candidate(nodes[i], nodes[candidates[k]])
    requires Linked(nodes, i, candidates[..k], children, children0, parents, parents0, date)
    ensures var c := candidates[k];
      if Related(nodes, i, c, date)
      then Linked(nodes, i, candidates[..k + 1], children[i := children[i] + [nodes[c].id]], children0,
                  parents[c := parents[c] + [nodes[i].id]], parents0, date)
      else Linked(nodes, i, candidates[..k + 1], children, children0, parents, parents0, date)
  {
    assert candidates[..k + 1] == candidates[..k] + [candidates[k]];
    SomeChildrenNext(nodes, i, candidates[..k], children[i], candidates[k], show, date);
  }

  lemma LinkedAll(nodes: seq<Node>, i: nat, candidates: seq<nat>, children: seq<seq<string>>,
                  children0: seq<seq<string>>,
                  parents: seq<seq<string>>, parents0: seq<seq<string>>, date: string -> Option<int>)
    requires i < |nodes| && Linked(nodes, i, candidates, children, children0, parents, parents0, date)
    requires forall j: nat :: j in candidates <==> j < |nodes| && Candidate(nodes[i], nodes[j])
    requires Connected(nodes, children0, parents0, i, date)
    ensures Connected(nodes, children, parents, i + 1, date)
  {
    forall j | 0 <= j < |nodes| ensures parents[j] == ParentIds(nodes, i + 1, j, date) {
      assert parents0[j] == ParentIds(nodes, i, j, date);
    }
  }

  lemma {:induction false} ParentIdsMeaning(nodes: seq<Node>, upto: nat, a: nat, j: nat,
                                            show: int -> string, date: string -> Option<int>)
    requires IsNodes(nodes, show) && upto <= |nodes| && a < |nodes|
    ensures nodes[a].id in ParentIds(nodes, upto, j, date) <==> a < upto && Edge(nodes, a, j, date)
  {
    if upto > 0 {
      ParentIdsMeaning(nodes, upto - 1, a, j, show, date);
      assert a != upto - 1 ==> nodes[a].id != nodes[upto - 1].id;
    }
  }

  lemma {:induction false} ParentIdsOnce(nodes: seq<Node>, upto: nat, j: nat,
                                         show: int -> string, date: string -> Option<int>)
    requires IsNodes(nodes, show) && upto <= |nodes|
    ensures NoDuplicates(ParentIds(nodes, upto, j, date))
  {
    if upto > 0 {
      ParentIdsOnce(nodes, upto - 1, j, show, date);
      ParentIdsMeaning(nodes, upto - 1, upto - 1, j, show, date);
    }
  }

  /** Child lists mirror parent lists. */
  lemma Mirror(nodes: seq<Node>, a: nat, j: nat, list: seq<string>, show: int -> string, date: string -> Option<int>)
    requires IsNodes(nodes, show) && a < |nodes| && j < |nodes| && ChildrenOf(nodes, a, list, date)
    ensures nodes[j].id in list <==> nodes[a].id in ParentIds(nodes, |nodes|, j, date)
  {
    ParentIdsMeaning(nodes, |nodes|, a, j, show, date);
  }

  /** The edges are exactly the related pairs if and only if no related pair is missed. */
  lemma CompleteExactly(nodes: seq<Node>, show: int -> string, date: string -> Option<int>)
    requires IsNodes(nodes, show)
    ensures (forall i: nat, j: nat :: Edge(nodes, i, j, date) <==> Related(nodes, i, j, date)) <==>
            (forall i: nat, j: nat :: Related(nodes, i, j, date) ==> !Missed(nodes[i], nodes[j]))
  {
    forall i: nat, j: nat | i < |nodes| && j < |nodes|
      ensures Edge(nodes, i, j, date) <==> Related(nodes, i, j, date) && !Missed(nodes[i], nodes[j])
    {
      EdgeExactly(nodes, i, j, show, date);
    }
  }

  /** With a path on every file record, the edges are exactly the related pairs. */
  lemma CompleteWithPaths(nodes: seq<Node>, show: int -> string, date: string -> Option<int>)
    requires IsNodes(nodes, show)
    requires forall i :: 0 <= i < |nodes| && nodes[i].kind == File ==> HasPath(nodes[i].record)
    ensures forall i: nat, j: nat :: Edge(nodes, i, j, date) <==> Related(nodes, i, j, date)
  {
    CompleteExactly(nodes, show, date);
  }

  /** A file opened without a path is related to a later process, and the edge is not found. */
  lemma MissedExample(show: int -> string, date: string -> Option<int>)
    ensures exists file, process :: IsCausallyRelated(NodeOf(file, show), NodeOf(process, show), date) &&
                                    !Candidate(NodeOf(file, show), NodeOf(process, show))
  {
    var file := ForensicRecord(1, None, "openat", "t", None, false);
    var process := ForensicRecord(2, None, "execve", "t", None, false);
    assert Missed(NodeOf(file, show), NodeOf(process, show));
  }
}
