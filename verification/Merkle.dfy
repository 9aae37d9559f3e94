/**
 The Merkle tree: built in one go, grown leaf by leaf, and proofs of inclusion.
 The pair hash is a parameter.
 */
module Merkle {

  type PairHash = (string, string) -> string

  const EMPTY := "EMPTY"

  // ---- Levels

  /** The parent of positions 2i and 2i + 1; a node without a right sibling is paired with itself. */
  function Parent(hash: PairHash, level: seq<string>, i: nat): string
    requires 2 * i < |level|
  {
    hash(level[2 * i], if 2 * i + 1 < |level| then level[2 * i + 1] else level[2 * i])
  }

  function NextLevel(hash: PairHash, level: seq<string>): (next: seq<string>)
    ensures |next| == (|level| + 1) / 2
    ensures forall i :: 0 <= i < |next| ==> next[i] == Parent(hash, level, i)
  {
    seq((|level| + 1) / 2, i requires 0 <= i < (|level| + 1) / 2 => Parent(hash, level, i))
  }

  function Levels(hash: PairHash, level: seq<string>): (t: seq<seq<string>>)
    requires level != []
    ensures t != [] && t[0] == level
    decreases |level|
  {
    if |level| == 1 then [level] else [level] + Levels(hash, NextLevel(hash, level))
  }

  /** The tree that the batch builder makes of a list of leaves. */
  function Built(hash: PairHash, leaves: seq<string>): (t: seq<seq<string>>)
    ensures t != [] && t[|t| - 1] != []
  {
    if leaves == [] then [[EMPTY]] else (LevelsShape(hash, leaves); Levels(hash, leaves))
  }

  /** Each level is made from the one below, and only the last has a single node. */
  ghost predicate IsLevels(hash: PairHash, t: seq<seq<string>>) {
    && t != [] && |t[|t| - 1]| == 1
    && (forall j :: 0 <= j < |t| - 1 ==> |t[j]| > 1 && t[j + 1] == NextLevel(hash, t[j]))
  }

  lemma {:induction false} LevelsShape(hash: PairHash, level: seq<string>)
    requires level != []
    ensures IsLevels(hash, Levels(hash, level))
    decreases |level|
  {
    if |level| > 1 {
      var next := NextLevel(hash, level);
      var rest := Levels(hash, next);
      LevelsShape(hash, next);
      var t := Levels(hash, level);
      forall j | 0 <= j < |t| - 1 ensures |t[j]| > 1 && t[j + 1] == NextLevel(hash, t[j]) {
        if j > 0 { assert t[j] == rest[j - 1] && t[j + 1] == rest[j]; }
      }
    }
  }

  lemma {:induction false} LevelsUnique(hash: PairHash, t: seq<seq<string>>)
    requires IsLevels(hash, t)
    ensures t[0] != [] && t == Levels(hash, t[0])
    decreases |t|
  {
    if |t| == 1 {
      assert t == [t[0]];
    } else {
      assert |t[0]| > 1 && t[1] == NextLevel(hash, t[0]);
      LevelsUnique(hash, t[1..]);
      assert t == [t[0]] + t[1..];
    }
  }

  function Last<T>(s: seq<T>): T
    requires s != []
  {
    s[|s| - 1]
  }

  // ---- The tree from the top

  function Pow2(h: nat): (p: nat)
    ensures p > 0
  {
    if h == 0 then 1 else 2 * Pow2(h - 1)
  }

  /**
   The root of a tree of height h, from the top: the left half of its places and the right half, hashed in this
   order; where the right half has no leaf, the left one is hashed with itself.
   */
  function TopDown(hash: PairHash, leaves: seq<string>, h: nat): string
    requires 0 < |leaves| <= Pow2(h)
  {
    if h == 0 then leaves[0]
    else
      var half := Pow2(h - 1);
      if |leaves| <= half then
        var left := TopDown(hash, leaves, h - 1);
        hash(left, left)
      else hash(TopDown(hash, leaves[..half], h - 1), TopDown(hash, leaves[half..], h - 1))
  }

  lemma NextLevelHalves(hash: PairHash, leaves: seq<string>, half: nat)
    requires 2 * half < |leaves|
    ensures half < |NextLevel(hash, leaves)|
    ensures NextLevel(hash, leaves[..2 * half]) == NextLevel(hash, leaves)[..half]
    ensures NextLevel(hash, leaves[2 * half..]) == NextLevel(hash, leaves)[half..]
  {
    var next, left, right := NextLevel(hash, leaves), leaves[..2 * half], leaves[2 * half..];
    forall i | 0 <= i < half ensures NextLevel(hash, left)[i] == next[i] {
      assert Parent(hash, left, i) == Parent(hash, leaves, i);
    }
    forall i | 0 <= i < |NextLevel(hash, right)| ensures NextLevel(hash, right)[i] == next[half + i] {
      assert Parent(hash, right, i) == Parent(hash, leaves, half + i);
    }
  }

  /** Hashing the leaves in pairs takes one level off the bottom. */
  lemma {:induction false} TopDownShift(hash: PairHash, leaves: seq<string>, h: nat)
    requires 0 < |leaves| <= Pow2(h + 1)
    ensures 0 < |NextLevel(hash, leaves)| <= Pow2(h)
    ensures TopDown(hash, leaves, h + 1) == TopDown(hash, NextLevel(hash, leaves), h)
    decreases h
  {
    var next := NextLevel(hash, leaves);
    if h == 0 {
      assert Pow2(0) == 1 && next[0] == Parent(hash, leaves, 0);
      if |leaves| == 2 { assert leaves[..1] == [leaves[0]] && leaves[1..] == [leaves[1]]; }
    } else {
      var half := Pow2(h - 1);
      assert Pow2(h) == 2 * half;
      if |leaves| <= 2 * half {
        TopDownShift(hash, leaves, h - 1);
      } else {
        NextLevelHalves(hash, leaves, half);
        TopDownShift(hash, leaves[..2 * half], h - 1);
        TopDownShift(hash, leaves[2 * half..], h - 1);
      }
    }
  }

  /**
   The builder's levels have the least height that offers a place to every leaf, and end in the root as it is
   from the top.
   */
  lemma {:induction false} RootFromTop(hash: PairHash, leaves: seq<string>)
    requires leaves != []
    ensures var h := |Levels(hash, leaves)| - 1;
      && |leaves| <= Pow2(h) && (h > 0 ==> Pow2(h - 1) < |leaves|)
      && Last(Levels(hash, leaves)) == [TopDown(hash, leaves, h)]
    decreases |leaves|
  {
    if |leaves| > 1 {
      var next := NextLevel(hash, leaves);
      var h := |Levels(hash, next)| - 1;
      RootFromTop(hash, next);
      assert |Levels(hash, leaves)| - 1 == h + 1;
      TopDownShift(hash, leaves, h);
    }
  }

  // ---- Growing by one leaf

  /** Assignment to an array index that may be one past the end. */
  function SetAt(level: seq<string>, i: nat, x: string): (r: seq<string>)
    requires i <= |level|
    ensures |r| == if i < |level| then |level| else |level| + 1
    ensures r[i] == x && forall j :: 0 <= j < |level| && j != i ==> r[j] == level[j]
  {
    if i < |level| then level[i := x] else level + [x]
  }

  /** Changing or adding the last node of a level does the same to the level above. */
  lemma LevelGrows(hash: PairHash, level: seq<string>, k: nat, x: string)
    requires level != [] && |level| - 1 <= k <= |level|
    ensures k / 2 <= |NextLevel(hash, level)| && |NextLevel(hash, level)| - 1 <= k / 2
    ensures NextLevel(hash, SetAt(level, k, x)) ==
      SetAt(NextLevel(hash, level), k / 2, Parent(hash, SetAt(level, k, x), k / 2))
  {
    var level' := SetAt(level, k, x);
    var next, next' := NextLevel(hash, level), NextLevel(hash, level');
    var grown := SetAt(next, k / 2, Parent(hash, level', k / 2));
    assert |next'| == |grown|;
    forall i | 0 <= i < |next'| ensures next'[i] == grown[i] {
      if i != k / 2 {
        assert 2 * i + 1 < k;
        assert Parent(hash, level', i) == Parent(hash, level, i);
      }
    }
  }

  /** Levels up to i follow from the longer list of leaves; the rest are still those of t0. */
  ghost predicate Climbing(hash: PairHash, t0: seq<seq<string>>, t: seq<seq<string>>, i: nat, index: nat,
                           current: string)
  {
    && |t| == |t0| && i < |t|
    && t[i + 1..] == t0[i + 1..]
    && (forall j :: 0 <= j < i ==> |t[j]| > 1 && t[j + 1] == NextLevel(hash, t[j]))
    && t0[i] != [] && |t0[i]| - 1 <= index <= |t0[i]|
    && t[i] == SetAt(t0[i], index, current)
  }

  /** The parent that `addLeaf` computes for the last node of a level. */
  function LastParent(hash: PairHash, level: seq<string>, index: nat, current: string): string
    requires index < |level|
  {
    if index % 2 == 1 then hash(level[index - 1], current) else hash(current, current)
  }

  lemma ClimbStep(hash: PairHash, t0: seq<seq<string>>, t: seq<seq<string>>, i: nat, index: nat, current: string)
    requires IsLevels(hash, t0) && Climbing(hash, t0, t, i, index, current) && i < |t| - 1
    ensures index < |t[i]| && index / 2 <= |t[i + 1]|
    ensures var up := LastParent(hash, t[i], index, current);
      Climbing(hash, t0, t[i + 1 := SetAt(t[i + 1], index / 2, up)], i + 1, index / 2, up)
  {
    LevelGrows(hash, t0[i], index, current);
    assert |t0[i]| > 1 && t0[i + 1] == NextLevel(hash, t0[i]);
    assert t[i + 1] == t[i + 1..][0] == t0[i + 1];
    var up := LastParent(hash, t[i], index, current);
    assert up == Parent(hash, t[i], index / 2);
    var t' := t[i + 1 := SetAt(t[i + 1], index / 2, up)];
    assert t'[i + 2..] == t[i + 1..][1..] == t0[i + 2..];
    assert t'[i + 1] == NextLevel(hash, t'[i]);
  }

  /** At the top, one node is the root; two need a new root above them. */
  lemma ClimbEnd(hash: PairHash, t0: seq<seq<string>>, t: seq<seq<string>>, index: nat, current: string)
    requires t != [] && IsLevels(hash, t0) && Climbing(hash, t0, t, |t| - 1, index, current)
    ensures 1 <= |Last(t)| <= 2
    ensures |Last(t)| == 1 ==> IsLevels(hash, t)
    ensures |Last(t)| == 2 ==> IsLevels(hash, t + [[hash(Last(t)[0], Last(t)[1])]])
  {
    if |Last(t)| == 2 {
      assert NextLevel(hash, Last(t)) == [Parent(hash, Last(t), 0)];
    }
  }

  // ---- Proofs

  /** The node that a proof carries for position i of a level. */
  function Sibling(level: seq<string>, i: nat): string
    requires i < |level|
  {
    var s := if i % 2 == 1 then i - 1 else i + 1;
    if s < |level| then level[s] else level[i]
  }

  ghost function ProofFor(hash: PairHash, t: seq<seq<string>>, i: nat): (proof: seq<string>)
    requires IsLevels(hash, t) && i < |t[0]|
    ensures |proof| == |t| - 1
    decreases |t|
  {
    if |t| == 1 then [] else [Sibling(t[0], i)] + ProofFor(hash, t[1..], i / 2)
  }

  /** One step of verification: the sibling goes on the left of an odd position. */
  function Combine(hash: PairHash, current: string, i: nat, sibling: string): string {
    if i % 2 == 1 then hash(sibling, current) else hash(current, sibling)
  }

  function Fold(hash: PairHash, current: string, i: nat, proof: seq<string>): string
    decreases proof
  {
    if proof == [] then current else Fold(hash, Combine(hash, current, i, proof[0]), i / 2, proof[1..])
  }

  lemma CombineIsParent(hash: PairHash, level: seq<string>, i: nat)
    requires i < |level|
    ensures Combine(hash, level[i], i, Sibling(level, i)) == Parent(hash, level, i / 2)
  {}

  /** The proof of a leaf folds to the root. */
  lemma {:induction false} ProofFolds(hash: PairHash, t: seq<seq<string>>, i: nat)
    requires IsLevels(hash, t) && i < |t[0]|
    ensures Fold(hash, t[0][i], i, ProofFor(hash, t, i)) == Last(t)[0]
    decreases |t|
  {
    if |t| > 1 {
      CombineIsParent(hash, t[0], i);
      ProofFolds(hash, t[1..], i / 2);
      assert ProofFor(hash, t, i)[1..] == ProofFor(hash, t[1..], i / 2);
    }
  }

  /** Pairs of digests never collide, and hashing gives a digest. */
  ghost predicate CollisionFree(hash: PairHash, digest: string -> bool) {
    && (forall a, b :: digest(a) && digest(b) ==> digest(hash(a, b)))
    && (forall a, b, c, d :: NoCollision(hash, digest, a, b, c, d))
  }

  ghost predicate NoCollision(hash: PairHash, digest: string -> bool, a: string, b: string, c: string, d: string) {
    digest(a) && digest(b) && digest(c) && digest(d) && hash(a, b) == hash(c, d) ==> a == c && b == d
  }

  /** A pairing that writes the length of its left part in front. */
  function Paired(a: string, b: string): string { seq(|a|, _ => '1') + "0" + (a + b) }

  lemma PairedUnique(a: string, b: string, c: string, d: string)
    requires Paired(a, b) == Paired(c, d)
    ensures a == c && b == d
  {
    var p, q := Paired(a, b), Paired(c, d);
    assert p[|a|] == '0' && q[|c|] == '0';
    assert forall i :: 0 <= i < |a| ==> p[i] == '1';
    assert forall i :: 0 <= i < |c| ==> q[i] == '1';
    assert p[|a| + 1..] == a + b && q[|c| + 1..] == c + d;
    assert (a + b)[..|a|] == a && (c + d)[..|c|] == c;
    assert (a + b)[|a|..] == b && (c + d)[|c|..] == d;
  }

  /** The assumption can be met, with digests that are not empty. */
  lemma CollisionFreeExists() returns (hash: PairHash, digest: string -> bool)
    ensures CollisionFree(hash, digest) && !digest("") && exists s :: digest(s)
  {
    hash, digest := Paired, s => s != "";
    assert digest("0");
    forall a, b, c, d ensures NoCollision(hash, digest, a, b, c, d) {
      if hash(a, b) == hash(c, d) { PairedUnique(a, b, c, d); }
    }
  }

  lemma NextLevelDigests(hash: PairHash, digest: string -> bool, level: seq<string>)
    requires CollisionFree(hash, digest) && forall j :: 0 <= j < |level| ==> digest(level[j])
    ensures forall j :: 0 <= j < |NextLevel(hash, level)| ==> digest(NextLevel(hash, level)[j])
  {}

  lemma CombineInjective(hash: PairHash, digest: string -> bool, a: string, b: string, i: nat, s: string, r: string)
    requires CollisionFree(hash, digest) && digest(a) && digest(b) && digest(s) && digest(r)
    requires Combine(hash, a, i, s) == Combine(hash, b, i, r)
    ensures a == b && s == r
  {
    assert NoCollision(hash, digest, a, s, b, r) && NoCollision(hash, digest, s, a, r, b);
  }

  /**
   What folds to the root from a position of the tree, with a proof of full length, is the leaf there with its
   own proof.
   */
  lemma {:induction false} FoldUnique(hash: PairHash, digest: string -> bool, t: seq<seq<string>>, i: nat,
                                      leaf: string, proof: seq<string>)
    requires CollisionFree(hash, digest) && IsLevels(hash, t) && i < |t[0]|
    requires forall j :: 0 <= j < |t[0]| ==> digest(t[0][j])
    requires digest(leaf) && (forall j :: 0 <= j < |proof| ==> digest(proof[j])) && |proof| == |t| - 1
    requires Fold(hash, leaf, i, proof) == Last(t)[0]
    ensures leaf == t[0][i] && proof == ProofFor(hash, t, i)
    decreases |t|
  {
    if |t| > 1 {
      NextLevelDigests(hash, digest, t[0]);
      var up := Combine(hash, leaf, i, proof[0]);
      FoldUnique(hash, digest, t[1..], i / 2, up, proof[1..]);
      CombineIsParent(hash, t[0], i);
      CombineInjective(hash, digest, leaf, t[0][i], i, proof[0], Sibling(t[0], i));
      assert proof == [proof[0]] + proof[1..];
    }
  }

  /** The root as `getRoot` reports it: an empty string counts as no root. */
  function RootOf(t: seq<seq<string>>): string
    requires t != [] && Last(t) != []
  {
    if Last(t)[0] == "" then EMPTY else Last(t)[0]
  }

  method Verify(hash: PairHash, root: string, leaf: string, index: nat, proof: seq<string>) returns (ok: bool)
    ensures ok <==> Fold(hash, leaf, index, proof) == root
  {
    var current, i := leaf, index;
    for n := 0 to |proof|
      invariant Fold(hash, current, i, proof[n..]) == Fold(hash, leaf, index, proof)
    {
      assert proof[n..][1..] == proof[n + 1..];
      if i % 2 == 1 {
        current := hash(proof[n], current);
      } else {
        current := hash(current, proof[n]);
      }
      i := i / 2;
    }
    return current == root;
  }

  /** Grown leaf by leaf or built at once, the same tree. */
  class MerkleTree {
    const hash: PairHash
    var leaves: seq<string>
    var tree: seq<seq<string>>

    ghost predicate Valid()
      reads this
    {
      tree == Built(hash, leaves)
    }

    constructor (hash: PairHash, leaves: seq<string>)
      ensures Valid() && this.hash == hash && this.leaves == leaves
    {
      this.hash := hash;
      this.leaves := leaves;
      this.tree := [];
      new;
      BuildTree();
    }

    method BuildTree()
      requires tree == []
      modifies this`tree
      ensures Valid()
    {
      if |leaves| == 0 {
        tree := [[EMPTY]];
        return;
      }
      var current := leaves;
      tree := tree + [current];
      while |current| > 1
        invariant current != [] && tree != [] && Last(tree) == current && tree[0] == leaves
        invariant forall j :: 0 <= j < |tree| - 1 ==> |tree[j]| > 1 && tree[j + 1] == NextLevel(hash, tree[j])
        decreases |current|
      {
        current := PairUp(current);
        tree := tree + [current];
      }
      LevelsUnique(hash, tree);
    }

    /** The inner loop of the builder. */
    method PairUp(level: seq<string>) returns (next: seq<string>)
      requires level != []
      ensures next == NextLevel(hash, level)
    {
      next := [];
      var i := 0;
      while i < |level|
        invariant i == 2 * |next| && |next| <= (|level| + 1) / 2
        invariant forall j :: 0 <= j < |next| ==> next[j] == Parent(hash, level, j)
      {
        var left := level[i];
        var right := if i + 1 < |level| then level[i + 1] else left;
        next := next + [hash(left, right)];
        i := i + 2;
      }
    }

    method GetRoot() returns (root: string)
      requires Valid()
      ensures root == RootOf(tree)
    {
      root := if Last(tree)[0] == "" then EMPTY else Last(tree)[0];
    }

    /**
     Adding a leaf to a tree that is as the builder makes it leaves a tree that is as the
     builder makes it from the longer list, exactly when the first leaf is not the word EMPTY.
     */
    method AddLeaf(leaf: string) returns (root: string)
      requires Valid()
      modifies this
      ensures leaves == old(leaves) + [leaf]
      ensures Valid() <==> old(leaves) == [] || old(leaves)[0] != EMPTY
      ensures Valid() && old(leaves) != [] ==> root == RootOf(tree)
      ensures old(leaves) == [] ==> root == leaf
    {
      leaves := leaves + [leaf];
      ResetTree(hash, old(leaves), leaf);
      if tree == [] || tree[0][0] == EMPTY {
        tree := [[leaf]];
        return leaf;
      }
      LevelsShape(hash, old(leaves));
      Climb(leaf);
      root := GetRoot();
    }

    /** The loop up the levels, and the new root level when the top has two nodes. */
    method Climb(leaf: string)
      requires IsLevels(hash, tree) && leaves == tree[0] + [leaf]
      modifies this`tree
      ensures leaves != [] && tree == Levels(hash, leaves)
    {
      tree := tree[0 := leaves];
      var index: nat, current := |leaves| - 1, leaf;
      for i := 0 to |tree| - 1
        invariant tree != [] && tree[0] == leaves
        invariant Climbing(hash, old(tree), tree, i, index, current)
      {
        ClimbStep(hash, old(tree), tree, i, index, current);
        current := LastParent(hash, tree[i], index, current);
        index := index / 2;
        tree := tree[i + 1 := SetAt(tree[i + 1], index, current)];
      }
      ClimbEnd(hash, old(tree), tree, index, current);
      if |Last(tree)| > 1 {
        tree := tree + [[hash(Last(tree)[0], Last(tree)[1])]];
      }
      LevelsUnique(hash, tree);
    }

    /** Any number of leaves added one after the other give the tree of the whole list. */
    method AddLeaves(more: seq<string>)
      requires Valid() && (more == [] || |leaves + more| <= 1 || (leaves + more)[0] != EMPTY)
      modifies this
      ensures Valid() && leaves == old(leaves) + more
    {
      for i := 0 to |more|
        invariant Valid() && leaves == old(leaves) + more[..i]
      {
        OneMore(old(leaves), more, i);
        var root := AddLeaf(more[i]);
      }
      assert more[..|more|] == more;
    }

    /** The loop that collects the siblings of a leaf on the way up. */
    method GetProof(index: nat) returns (proof: seq<string>)
      requires Valid() && index < |leaves|
      ensures IsLevels(hash, tree) && tree[0] == leaves && proof == ProofFor(hash, tree, index)
    {
      LevelsShape(hash, leaves);
      proof := [];
      var current: nat := index;
      var levels := tree;
      for i := 0 to |levels| - 1
        invariant Collected(hash, levels, index, i, current, proof)
      {
        ProofStep(hash, levels, index, i, current, proof);
        proof, current := proof + [Sibling(levels[i], current)], current / 2;
      }
    }
  }

  lemma OneMore(leaves: seq<string>, more: seq<string>, i: nat)
    requires i < |more|
    ensures leaves + more[..i] + [more[i]] == leaves + more[..i + 1]
    ensures leaves + more[..i] != [] ==> (leaves + more[..i])[0] == (leaves + more)[0]
  {}

  /** The siblings below level i are collected, and `current` is the position on that level. */
  ghost predicate Collected(hash: PairHash, levels: seq<seq<string>>, index: nat,
                            i: nat, current: nat, proof: seq<string>)
  {
    && IsLevels(hash, levels) && index < |levels[0]|
    && i < |levels| && IsLevels(hash, levels[i..]) && current < |levels[i..][0]|
    && proof + ProofFor(hash, levels[i..], current) == ProofFor(hash, levels, index)
  }

  lemma ProofStep(hash: PairHash, levels: seq<seq<string>>, index: nat, i: nat, current: nat, proof: seq<string>)
    requires Collected(hash, levels, index, i, current, proof) && i + 1 < |levels|
    ensures Collected(hash, levels, index, i + 1, current / 2, proof + [Sibling(levels[i], current)])
  {
    var t := levels[i..];
    assert t[0] == levels[i] && t[1..] == levels[i + 1..];
    var rest := ProofFor(hash, t[1..], current / 2);
    assert proof + ([Sibling(t[0], current)] + rest) == proof + [Sibling(t[0], current)] + rest;
  }

  lemma ResetTree(hash: PairHash, leaves: seq<string>, leaf: string)
    ensures [[leaf]] == Built(hash, leaves + [leaf]) <==> leaves == []
    ensures leaves != [] ==> Built(hash, leaves)[0] == leaves
  {
    assert Built(hash, leaves + [leaf])[0] == leaves + [leaf];
    if leaves == [] {
      assert leaves + [leaf] == [leaf];
    } else {
      assert |leaves + [leaf]| > 1;
    }
  }

  /**
   A proof from a tree verifies against the root it reports, for every leaf, exactly when
   the root hash is not the empty string.
   */
  method ProveAndVerify(tree: MerkleTree, index: nat) returns (ok: bool)
    requires tree.Valid() && index < |tree.leaves|
    ensures ok <==> Last(tree.tree)[0] != ""
  {
    var proof := tree.GetProof(index);
    var root := tree.GetRoot();
    ok := Verify(tree.hash, root, tree.leaves[index], index, proof);
    ProofFolds(tree.hash, tree.tree, index);
  }

  /**
   With a collision-free hash on digests, a proof as long as the tree is high is accepted
   for an index below the leaf count exactly when it is the tree's own proof of its own leaf.
   */
  lemma AcceptedIffProved(hash: PairHash, digest: string -> bool, leaves: seq<string>, index: nat, leaf: string,
                          proof: seq<string>)
    requires CollisionFree(hash, digest) && !digest("")
    requires index < |leaves| && forall j :: 0 <= j < |leaves| ==> digest(leaves[j])
    requires digest(leaf) && forall j :: 0 <= j < |proof| ==> digest(proof[j])
    requires |proof| == |Built(hash, leaves)| - 1
    ensures IsLevels(hash, Built(hash, leaves))
    ensures Fold(hash, leaf, index, proof) == RootOf(Built(hash, leaves)) <==>
      leaf == leaves[index] && proof == ProofFor(hash, Built(hash, leaves), index)
  {
    var t := Built(hash, leaves);
    LevelsShape(hash, leaves);
    RootDigest(hash, digest, t);
    ProofFolds(hash, t, index);
    if Fold(hash, leaf, index, proof) == RootOf(t) { FoldUnique(hash, digest, t, index, leaf, proof); }
  }

  lemma {:induction false} RootDigest(hash: PairHash, digest: string -> bool, t: seq<seq<string>>)
    requires CollisionFree(hash, digest) && IsLevels(hash, t)
    requires forall j :: 0 <= j < |t[0]| ==> digest(t[0][j])
    ensures digest(Last(t)[0])
    decreases |t|
  {
    if |t| > 1 {
      NextLevelDigests(hash, digest, t[0]);
      RootDigest(hash, digest, t[1..]);
    }
  }

  datatype Inclusion = Absent | Inclusion(leaf: string, index: nat, proof: seq<string>, root: string)

  // ---- What the root binds

  lemma ParentInjective(hash: PairHash, digest: string -> bool, a: seq<string>, b: seq<string>, i: nat)
    requires CollisionFree(hash, digest) && |a| == |b| && 2 * i < |a| && Parent(hash, a, i) == Parent(hash, b, i)
    requires forall j :: 0 <= j < |a| ==> digest(a[j]) && digest(b[j])
    ensures a[2 * i] == b[2 * i] && (2 * i + 1 < |a| ==> a[2 * i + 1] == b[2 * i + 1])
  {
    var k := if 2 * i + 1 < |a| then 2 * i + 1 else 2 * i;
    assert NoCollision(hash, digest, a[2 * i], a[k], b[2 * i], b[k]);
  }

  /** Levels of one length that hash to one level are one level. */
  lemma NextLevelInjective(hash: PairHash, digest: string -> bool, a: seq<string>, b: seq<string>)
    requires CollisionFree(hash, digest) && |a| == |b| && NextLevel(hash, a) == NextLevel(hash, b)
    requires forall j :: 0 <= j < |a| ==> digest(a[j]) && digest(b[j])
    ensures a == b
  {
    forall j | 0 <= j < |a| ensures a[j] == b[j] {
      var i := j / 2;
      assert NextLevel(hash, a)[i] == NextLevel(hash, b)[i];
      ParentInjective(hash, digest, a, b, i);
      assert j == 2 * i || j == 2 * i + 1;
    }
  }

  lemma {:induction false} TopBinds(hash: PairHash, digest: string -> bool, a: seq<string>, b: seq<string>)
    requires CollisionFree(hash, digest) && |a| == |b| > 0
    requires forall j :: 0 <= j < |a| ==> digest(a[j]) && digest(b[j])
    requires Last(Levels(hash, a)) == Last(Levels(hash, b))
    ensures a == b
    decreases |a|
  {
    if |a| > 1 {
      NextLevelDigests(hash, digest, a);
      NextLevelDigests(hash, digest, b);
      TopBinds(hash, digest, NextLevel(hash, a), NextLevel(hash, b));
      NextLevelInjective(hash, digest, a, b);
    }
  }

  /** Lists of one length with one root are one list. */
  lemma RootBinds(hash: PairHash, digest: string -> bool, a: seq<string>, b: seq<string>)
    requires CollisionFree(hash, digest) && !digest("") && |a| == |b|
    requires forall j :: 0 <= j < |a| ==> digest(a[j]) && digest(b[j])
    ensures RootOf(Built(hash, a)) == RootOf(Built(hash, b)) <==> a == b
  {
    if a != [] && RootOf(Built(hash, a)) == RootOf(Built(hash, b)) {
      LevelsShape(hash, a);
      LevelsShape(hash, b);
      RootDigest(hash, digest, Levels(hash, a));
      RootDigest(hash, digest, Levels(hash, b));
      TopBinds(hash, digest, a, b);
    }
  }

  /** Lists of different lengths need not be: with its last leaf twice an odd list longer than one keeps its root. */
  lemma OddLastRepeats(hash: PairHash, leaves: seq<string>)
    requires |leaves| > 1 && |leaves| % 2 == 1
    ensures RootOf(Built(hash, leaves + [Last(leaves)])) == RootOf(Built(hash, leaves))
  {
    var longer := leaves + [Last(leaves)];
    assert NextLevel(hash, longer) == NextLevel(hash, leaves);
  }

  function Reversed(s: seq<string>): (r: seq<string>)
    ensures |r| == |s|
    ensures forall i :: 0 <= i < |s| ==> r[i] == s[|s| - 1 - i]
  {
    seq(|s|, i requires 0 <= i < |s| => s[|s| - 1 - i])
  }

  lemma ReversedHas(s: seq<string>, x: string)
    ensures x in s <==> x in Reversed(s)
  {
    if x in s {
      var i :| 0 <= i < |s| && s[i] == x;
      assert Reversed(s)[|s| - 1 - i] == x;
    }
  }

  method IndexOf(s: seq<string>, x: string) returns (i: int)
    ensures i == -1 <==> x !in s
    ensures i != -1 ==> 0 <= i < |s| && s[i] == x && x !in s[..i]
  {
    for j := 0 to |s|
      invariant x !in s[..j]
    {
      if s[j] == x { return j; }
    }
    return -1;
  }

  /**
   The proof of the oldest occurrence of a hash among recent ones, newest first: absent only when the hash is.
   The root is that of the tree of all of them, oldest first, and the proof has a node for each of its levels.
   */
  method GetMerkleProof(hash: PairHash, eventHash: string, recent: seq<string>) returns (r: Inclusion)
    ensures r.Absent? <==> eventHash !in recent
    ensures r.Inclusion? ==> r.leaf == eventHash && r.index < |recent| && recent[|recent| - 1 - r.index] == eventHash
    ensures r.Inclusion? ==> eventHash !in recent[|recent| - r.index..]
    ensures r.Inclusion? ==> r.root == RootOf(Built(hash, Reversed(recent)))
    ensures r.Inclusion? ==> |recent| <= Pow2(|r.proof|) && (r.proof != [] ==> Pow2(|r.proof| - 1) < |recent|)
    ensures r.Inclusion? ==>
      var top := TopDown(hash, Reversed(recent), |r.proof|);
      r.root == (if top == "" then EMPTY else top) && Fold(hash, r.leaf, r.index, r.proof) == top
    ensures r.Inclusion? ==> IsLevels(hash, Built(hash, Reversed(recent))) &&
                             r.proof == ProofFor(hash, Built(hash, Reversed(recent)), r.index)
  {
    var hashes := Reversed(recent);
    var index := IndexOf(hashes, eventHash);
    ReversedHas(recent, eventHash);
    if index == -1 { return Absent; }
    assert recent[|recent| - 1 - index] == eventHash;
    forall j | |recent| - index <= j < |recent| ensures recent[j] != eventHash {
      assert hashes[..index][|recent| - 1 - j] == recent[j];
    }
    var tree := new MerkleTree(hash, hashes);
    var proof := tree.GetProof(index);
    var root := tree.GetRoot();
    ProofFolds(hash, tree.tree, index);
    RootFromTop(hash, hashes);
    return Inclusion(eventHash, index, proof, root);
  }
}
