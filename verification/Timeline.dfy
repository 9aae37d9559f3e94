/**
 A repository that keeps its entries in the order of their keys: saving files an
 entry where its key belongs, over the entry with that key if there is one.
 */
module Timeline {

  /** What an order by keys satisfies; entries neither of which comes first have one key. */
  ghost predicate Lawful<T(!new)>(before: (T, T) -> bool, x: T, y: T, z: T) {
    && !before(x, x)
    && (before(x, y) && before(y, z) ==> before(x, z))
    && (before(x, z) ==> before(x, y) || before(y, z))
  }

  ghost predicate IsOrder<T(!new)>(before: (T, T) -> bool) {
    forall x, y, z :: Lawful(before, x, y, z)
  }

  lemma Law<T(!new)>(before: (T, T) -> bool, x: T, y: T, z: T)
    requires IsOrder(before)
    ensures !before(x, x)
    ensures before(x, y) && before(y, z) ==> before(x, z)
    ensures before(x, z) ==> before(x, y) || before(y, z)
  {
    assert Lawful(before, x, y, z);
  }

  predicate SameKey<T(!new)>(before: (T, T) -> bool, x: T, y: T) { !before(x, y) && !before(y, x) }

  ghost predicate Ascending<T(!new)>(before: (T, T) -> bool, es: seq<T>) {
    forall i, j :: 0 <= i < j < |es| ==> before(es[i], es[j])
  }

  ghost predicate DistinctKeys<T(!new)>(before: (T, T) -> bool, es: seq<T>) {
    forall i, j :: 0 <= i < j < |es| ==> !SameKey(before, es[i], es[j])
  }

  function File<T(!new)>(before: (T, T) -> bool, repo: seq<T>, e: T): seq<T> {
    if repo == [] then [e]
    else if before(repo[0], e) then [repo[0]] + File(before, repo[1..], e)
    else if before(e, repo[0]) then [e] + repo
    else [e] + repo[1..]
  }

  /** Entries saved one after the other. */
  function FileAll<T(!new)>(before: (T, T) -> bool, repo: seq<T>, es: seq<T>): seq<T> {
    if es == [] then repo
    else
      var n := |es| - 1;
      File(before, FileAll(before, repo, es[..n]), es[n])
  }

  lemma FirstBefore<T(!new)>(before: (T, T) -> bool, repo: seq<T>, e: T, i: nat)
    requires IsOrder(before) && Ascending(before, repo) && i < |repo| && !before(repo[0], e)
    requires i > 0 || before(e, repo[0])
    ensures before(e, repo[i])
  {
    if i > 0 {
      assert before(repo[0], repo[i]);
      Law(before, repo[0], e, repo[i]);
    }
  }

  /** What is stored after a save: the entry, and what was stored under other keys. */
  lemma {:induction false} FileMembers<T(!new)>(before: (T, T) -> bool, repo: seq<T>, e: T, x: T)
    requires IsOrder(before) && Ascending(before, repo)
    ensures x in File(before, repo, e) <==> x == e || (x in repo && !SameKey(before, x, e))
  {
    if repo != [] {
      assert repo == [repo[0]] + repo[1..];
      if before(repo[0], e) {
        FileMembers(before, repo[1..], e, x);
      } else {
        forall i | 0 <= i < |repo| && (i > 0 || before(e, repo[0])) ensures before(e, repo[i]) {
          FirstBefore(before, repo, e, i);
        }
        assert forall i :: 0 <= i < |repo[1..]| ==> repo[1..][i] == repo[i + 1];
      }
    }
  }

  lemma {:induction false} FileAscending<T(!new)>(before: (T, T) -> bool, repo: seq<T>, e: T)
    requires IsOrder(before) && Ascending(before, repo)
    ensures Ascending(before, File(before, repo, e))
  {
    if repo != [] {
      var rest := repo[1..];
      if before(repo[0], e) {
        FileAscending(before, rest, e);
        var filed := File(before, rest, e);
        forall i | 0 <= i < |filed| ensures before(repo[0], filed[i]) {
          FileMembers(before, rest, e, filed[i]);
          if filed[i] != e {
            var k :| 0 <= k < |rest| && rest[k] == filed[i];
            assert repo[k + 1] == filed[i];
          }
        }
      } else {
        forall i | 0 <= i < |repo| && (i > 0 || before(e, repo[0])) ensures before(e, repo[i]) {
          FirstBefore(before, repo, e, i);
        }
      }
    }
  }

  /** An entry behind all others is appended. */
  lemma {:induction false} FileLast<T(!new)>(before: (T, T) -> bool, repo: seq<T>, e: T)
    requires forall i :: 0 <= i < |repo| ==> before(repo[i], e)
    ensures File(before, repo, e) == repo + [e]
  {
    if repo != [] {
      FileLast(before, repo[1..], e);
      assert repo + [e] == [repo[0]] + (repo[1..] + [e]);
    }
  }

  lemma {:induction false} FileAllAscending<T(!new)>(before: (T, T) -> bool, repo: seq<T>, es: seq<T>)
    requires IsOrder(before) && Ascending(before, repo)
    ensures Ascending(before, FileAll(before, repo, es))
  {
    if es != [] {
      var n := |es| - 1;
      FileAllAscending(before, repo, es[..n]);
      FileAscending(before, FileAll(before, repo, es[..n]), es[n]);
    }
  }

  lemma {:induction false} FileAllConcat<T(!new)>(before: (T, T) -> bool, repo: seq<T>, a: seq<T>, b: seq<T>)
    ensures FileAll(before, repo, a + b) == FileAll(before, FileAll(before, repo, a), b)
    decreases |b|
  {
    if b == [] {
      assert a + b == a;
    } else {
      var n := |b| - 1;
      assert (a + b)[..|a| + n] == a + b[..n];
      FileAllConcat(before, repo, a, b[..n]);
    }
  }

  lemma FileAllFirst<T(!new)>(before: (T, T) -> bool, repo: seq<T>, e: T, es: seq<T>)
    ensures FileAll(before, repo, [e] + es) == FileAll(before, File(before, repo, e), es)
  {
    assert [e][..0] == [];
    FileAllConcat(before, repo, [e], es);
  }

  /** Entries that come in the order of their keys are stored as they come. */
  lemma {:induction false} FileInOrder<T(!new)>(before: (T, T) -> bool, es: seq<T>)
    requires Ascending(before, es)
    ensures FileAll(before, [], es) == es
  {
    if es != [] {
      var n := |es| - 1;
      FileInOrder(before, es[..n]);
      FileLast(before, es[..n], es[n]);
    }
  }

  /** Nothing else is stored, and the last entry always is. */
  lemma {:induction false} FileAllAmong<T(!new)>(before: (T, T) -> bool, es: seq<T>, x: T)
    requires IsOrder(before)
    ensures x in FileAll(before, [], es) ==> x in es
    ensures es != [] ==> es[|es| - 1] in FileAll(before, [], es)
  {
    if es != [] {
      var n := |es| - 1;
      FileAllAmong(before, es[..n], x);
      FileAllAscending(before, [], es[..n]);
      FileMembers(before, FileAll(before, [], es[..n]), es[n], x);
      FileMembers(before, FileAll(before, [], es[..n]), es[n], es[n]);
    }
  }

  /** Under distinct keys everything is kept. */
  lemma {:induction false} FileAllKeeps<T(!new)>(before: (T, T) -> bool, es: seq<T>, k: nat)
    requires IsOrder(before) && DistinctKeys(before, es) && k < |es|
    ensures es[k] in FileAll(before, [], es)
  {
    var n := |es| - 1;
    FileAllAscending(before, [], es[..n]);
    FileMembers(before, FileAll(before, [], es[..n]), es[n], es[k]);
    if k < n {
      FileAllKeeps(before, es[..n], k);
      assert !SameKey(before, es[k], es[n]);
    }
  }

  lemma FileNext<T(!new)>(before: (T, T) -> bool, repo: seq<T>, es: seq<T>, e: T)
    ensures FileAll(before, repo, es + [e]) == File(before, FileAll(before, repo, es), e)
  {
    assert (es + [e])[..|es|] == es;
  }

  lemma FileOne<T(!new)>(before: (T, T) -> bool, e: T)
    ensures FileAll(before, [], [e]) == [e]
  {
    FileNext(before, [], [], e);
    assert [] + [e] == [e];
  }

  /** The second comes first. */
  lemma FileSwapped<T(!new)>(before: (T, T) -> bool, x: T, y: T)
    requires IsOrder(before) && before(y, x)
    ensures FileAll(before, [], [x, y]) == [y, x]
  {
    Law(before, y, x, y);
    FileOne(before, x);
    FileNext(before, [], [x], y);
    assert [x] + [y] == [x, y];
  }

  /** An entry that is saved again stays where it was. */
  lemma FileAgain<T(!new)>(before: (T, T) -> bool, x: T, y: T, z: T)
    requires IsOrder(before) && before(x, y) && before(y, z)
    ensures FileAll(before, [], [x, y, x, z]) == [x, y, z]
  {
    Law(before, x, y, z);
    Law(before, x, y, x);
    FileInOrder(before, [x, y]);
    FileNext(before, [], [x, y], x);
    FileNext(before, [], [x, y] + [x], z);
    assert [x, y] + [x] + [z] == [x, y, x, z];
    assert File(before, [x, y], x) == [x] + [x, y][1..] == [x, y];
    FileLast(before, [x, y], z);
  }
}
