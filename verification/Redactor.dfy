/**
 The secret redactor: which values it registers, and that no registered secret
 survives in its output.
 */
module Redactor {

  const MARK := "[REDACTED]"
  const SENSITIVE_KEYS := ["API_TOKEN", "MESH_SECRET", "PKI_SECRET", "SECURE_BYPASS_TOKEN"]

  ghost predicate OccursAt(text: string, s: string, i: int) {
    0 <= i <= |text| - |s| && text[i..i + |s|] == s
  }

  ghost predicate Contains(text: string, s: string) {
    exists i :: OccursAt(text, s, i)
  }

  /** Global replacement by the mark: leftmost matches first, without overlap. */
  function ReplaceAll(text: string, s: string): string
    requires s != ""
    decreases |text|
  {
    if text == "" then ""
    else if s <= text then MARK + ReplaceAll(text[|s|..], s)
    else [text[0]] + ReplaceAll(text[1..], s)
  }

  /** The replacements one after the other. */
  function RedactAll(text: string, secrets: seq<string>): string
    requires "" !in secrets
  {
    if secrets == [] then text
    else
      var n := |secrets| - 1;
      ReplaceAll(RedactAll(text, secrets[..n]), secrets[n])
  }

  /** The secret, placed i characters into the mark, overlaps it and agrees with it on the overlap. */
  ghost predicate Meets(s: string, i: int) {
    -|s| < i < |MARK| && forall j :: 0 <= j < |s| && 0 <= i + j < |MARK| ==> s[j] == MARK[i + j]
  }

  /** The mark contains the secret, is contained in it, or shares an end with it. */
  ghost predicate Overlaps(s: string) {
    exists i :: Meets(s, i)
  }

  ghost predicate EndsInto(s: string, k: int) {
    0 < k <= |s| && k <= |MARK| && s[|s| - k..] == MARK[..k]
  }

  ghost predicate StartsFrom(s: string, k: int) {
    0 < k <= |s| && k <= |MARK| && s[..k] == MARK[|MARK| - k..]
  }

  /** The four ways to overlap. */
  lemma OverlapKinds(s: string)
    requires s != ""
    ensures Overlaps(s) <==>
      Contains(MARK, s) || Contains(s, MARK) || (exists k :: EndsInto(s, k)) || (exists k :: StartsFrom(s, k))
  {
    forall i | Meets(s, i)
      ensures OccursAt(MARK, s, i) || OccursAt(s, MARK, -i) || EndsInto(s, i + |s|) || StartsFrom(s, |MARK| - i)
    {
      if i >= 0 && i + |s| <= |MARK| {
        assert MARK[i..i + |s|] == s;
      } else if i <= 0 && i + |s| >= |MARK| {
        assert s[-i..-i + |MARK|] == MARK;
      } else if i < 0 {
        assert s[|s| - (i + |s|)..] == MARK[..i + |s|];
      } else {
        assert s[..|MARK| - i] == MARK[i..];
      }
    }
    KindsOverlap(s);
  }

  lemma KindsOverlap(s: string)
    requires s != ""
    ensures forall i :: OccursAt(MARK, s, i) ==> Meets(s, i)
    ensures forall i :: OccursAt(s, MARK, i) ==> Meets(s, -i)
    ensures forall k :: EndsInto(s, k) ==> Meets(s, k - |s|)
    ensures forall k :: StartsFrom(s, k) ==> Meets(s, |MARK| - k)
  {
    forall i | OccursAt(MARK, s, i) ensures Meets(s, i) {
      forall j | 0 <= j < |s| ensures s[j] == MARK[i + j] { assert MARK[i..i + |s|][j] == MARK[i + j]; }
    }
    forall i | OccursAt(s, MARK, i) ensures Meets(s, -i) {
      forall j | 0 <= j < |s| && 0 <= j - i < |MARK| ensures s[j] == MARK[j - i] {
        assert s[i..i + |MARK|][j - i] == s[i + (j - i)];
      }
    }
    forall k | EndsInto(s, k) ensures Meets(s, k - |s|) {
      forall j | 0 <= j < |s| && 0 <= k - |s| + j ensures s[j] == MARK[k - |s| + j] {
        assert s[|s| - k..][k - |s| + j] == s[j];
      }
    }
    forall k | StartsFrom(s, k) ensures Meets(s, |MARK| - k) {
      forall j | 0 <= j < k ensures s[j] == MARK[|MARK| - k + j] { assert MARK[|MARK| - k..][j] == s[..k][j]; }
    }
  }

  /** An occurrence in what follows a prefix is an occurrence in the whole. */
  lemma OccursShifted(p: string, t: string, s: string, i: int)
    requires i >= |p|
    ensures OccursAt(p + t, s, i) <==> OccursAt(t, s, i - |p|)
  {
    if i <= |p + t| - |s| { assert (p + t)[i..i + |s|] == t[i - |p|..i - |p| + |s|]; }
  }

  lemma TailWithout(text: string, n: nat, s: string)
    requires n <= |text| && !Contains(text, s)
    ensures !Contains(text[n..], s)
  {
    assert text == text[..n] + text[n..];
    forall i ensures !OccursAt(text[n..], s, i) {
      if i >= 0 { OccursShifted(text[..n], text[n..], s, n + i); }
    }
  }

  /** The output up to a point is copied from the text, or a mark starts before that point. */
  lemma {:induction false} CopiedOrMarked(text: string, s: string, n: nat) returns (p: int)
    requires s != "" && n <= |ReplaceAll(text, s)|
    ensures p == -1 ==> n <= |text| && text[..n] == ReplaceAll(text, s)[..n]
    ensures p != -1 ==> 0 <= p < n && OccursAt(ReplaceAll(text, s), MARK, p)
    decreases |text|
  {
    var r := ReplaceAll(text, s);
    if n == 0 {
      p := -1;
    } else if s <= text {
      assert r[0..10] == MARK;
      p := 0;
    } else {
      var rest := ReplaceAll(text[1..], s);
      p := CopiedOrMarked(text[1..], s, n - 1);
      if p == -1 {
        assert text[..n] == [text[0]] + text[1..][..n - 1];
        assert r[..n] == [text[0]] + rest[..n - 1];
      } else {
        OccursShifted([text[0]], rest, MARK, p + 1);
        p := p + 1;
      }
    }
  }

  /** A secret found across a mark overlaps it. */
  lemma FoundAcross(text: string, u: string, i: int, p: int)
    requires OccursAt(text, u, i) && OccursAt(text, MARK, p) && p - |u| < i < p + |MARK|
    ensures Meets(u, i - p)
  {
    assert forall j :: 0 <= j < |u| ==> u[j] == text[i..i + |u|][j] == text[i + j];
    assert forall j :: 0 <= j < |MARK| ==> MARK[j] == text[p..p + |MARK|][j] == text[p + j];
    forall j | 0 <= j < |u| && 0 <= i - p + j < |MARK| ensures u[j] == MARK[i - p + j] {
      assert text[i + j] == text[p + (i - p + j)];
    }
  }

  /** A secret that does not overlap the mark is not found across one. */
  lemma NotInMark(rest: string, u: string, i: nat)
    requires !Overlaps(u) && u != "" && i < |MARK|
    ensures !OccursAt(MARK + rest, u, i)
  {
    assert (MARK + rest)[0..|MARK|] == MARK;
    if OccursAt(MARK + rest, u, i) { FoundAcross(MARK + rest, u, i, 0); }
  }

  lemma NotAtStart(text: string, s: string, u: string)
    requires s != "" && !Overlaps(u) && u != "" && !(s <= text) && (u == s || !Contains(text, u))
    ensures !OccursAt(ReplaceAll(text, s), u, 0)
  {
    var r := ReplaceAll(text, s);
    if OccursAt(r, u, 0) {
      var p := CopiedOrMarked(text, s, |u|);
      if p == -1 { Copied(text, r, u); } else { FoundAcross(r, u, 0, p); }
    }
  }

  lemma Copied(text: string, r: string, u: string)
    requires OccursAt(r, u, 0) && |u| <= |text| && text[..|u|] == r[..|u|]
    ensures u <= text && OccursAt(text, u, 0)
  {
    assert r[0..|u|] == r[..|u|] && text[0..|u|] == text[..|u|];
  }

  /** Replacing one secret removes it, and brings no secret in that does not overlap the mark. */
  lemma {:induction false} ReplaceKeepsOut(text: string, s: string, u: string)
    requires s != "" && !Overlaps(u) && u != "" && (u == s || !Contains(text, u))
    ensures !Contains(ReplaceAll(text, s), u)
    decreases |text|
  {
    if text == "" {
    } else if s <= text {
      var rest := ReplaceAll(text[|s|..], s);
      if u != s { TailWithout(text, |s|, u); }
      ReplaceKeepsOut(text[|s|..], s, u);
      forall i ensures !OccursAt(MARK + rest, u, i) {
        if i >= |MARK| { OccursShifted(MARK, rest, u, i); } else if i >= 0 { NotInMark(rest, u, i); }
      }
    } else {
      var rest := ReplaceAll(text[1..], s);
      if u != s { TailWithout(text, 1, u); }
      ReplaceKeepsOut(text[1..], s, u);
      forall i ensures !OccursAt([text[0]] + rest, u, i) {
        if i >= 1 { OccursShifted([text[0]], rest, u, i); } else if i == 0 { NotAtStart(text, s, u); }
      }
    }
  }

  /**
   Whatever the other secrets are and wherever it stands among them, a secret that does not overlap the mark is
   gone.
   */
  lemma {:induction false} NoSecretLeft(text: string, secrets: seq<string>, u: string)
    requires "" !in secrets && u in secrets && !Overlaps(u)
    ensures !Contains(RedactAll(text, secrets), u)
  {
    var n := |secrets| - 1;
    var before := RedactAll(text, secrets[..n]);
    if u in secrets[..n] { NoSecretLeft(text, secrets[..n], u); }
    else { assert u == secrets[n]; }
    ReplaceKeepsOut(before, secrets[n], u);
  }

  /** A text without secrets is left as it is. */
  lemma {:induction false} ReplaceNothing(text: string, s: string)
    requires s != "" && !Contains(text, s)
    ensures ReplaceAll(text, s) == text
    decreases |text|
  {
    if text != "" {
      assert s <= text ==> OccursAt(text, s, 0);
      TailWithout(text, 1, s);
      ReplaceNothing(text[1..], s);
      assert text == [text[0]] + text[1..];
    }
  }

  lemma {:induction false} CleanTextKept(text: string, secrets: seq<string>)
    requires "" !in secrets && forall i :: 0 <= i < |secrets| ==> !Contains(text, secrets[i])
    ensures RedactAll(text, secrets) == text
  {
    if secrets != [] {
      var n := |secrets| - 1;
      CleanTextKept(text, secrets[..n]);
      ReplaceNothing(text, secrets[n]);
    }
  }

  // ---- What overlaps the mark can reappear

  /** Up to the first match the text is copied. */
  lemma {:induction false} Skipped(text: string, s: string, n: nat)
    requires s != "" && n <= |text| && forall i :: 0 <= i < n ==> !OccursAt(text, s, i)
    ensures ReplaceAll(text, s) == text[..n] + ReplaceAll(text[n..], s)
  {
    if n == 0 {
      assert text[0..] == text;
    } else {
      Skipped(text, s, n - 1);
      var t := text[n - 1..];
      assert !(s <= t) by { NotHere(text, s, n - 1); }
      assert t[1..] == text[n..];
      assert text[..n] == text[..n - 1] + [t[0]];
    }
  }

  lemma NotHere(text: string, s: string, i: nat)
    requires i <= |text| && !OccursAt(text, s, i)
    ensures !(s <= text[i..])
  {}

  // ---- What is kept

  /** Pieces with a separator between them. */
  function Joined(pieces: seq<string>, separator: string): string
    requires pieces != []
  {
    if |pieces| == 1 then pieces[0] else pieces[0] + separator + Joined(pieces[1..], separator)
  }

  /** The secret is found right behind the piece, and not before. */
  ghost predicate EndsAtMatch(piece: string, s: string) {
    forall k :: 0 <= k < |piece| ==> !OccursAt(piece + s, s, k)
  }

  /** The pieces are what lies between the matches of the secret, taken from the left. */
  ghost predicate IsCut(text: string, s: string, pieces: seq<string>) {
    && pieces != [] && text == Joined(pieces, s)
    && (forall i :: 0 <= i < |pieces| - 1 ==> EndsAtMatch(pieces[i], s))
    && !Contains(pieces[|pieces| - 1], s)
  }

  lemma MatchStays(piece: string, s: string, rest: string, k: nat)
    requires k < |piece|
    ensures OccursAt(piece + s + rest, s, k) <==> OccursAt(piece + s, s, k)
  {
    assert (piece + s + rest)[k..k + |s|] == (piece + s)[k..k + |s|];
  }

  lemma AtMatch(s: string, rest: string)
    requires s != ""
    ensures ReplaceAll(s + rest, s) == MARK + ReplaceAll(rest, s)
  {
    assert (s + rest)[|s|..] == rest && s <= s + rest;
  }

  lemma FirstReplaced(piece: string, s: string, rest: string)
    requires s != "" && EndsAtMatch(piece, s)
    ensures ReplaceAll(piece + s + rest, s) == piece + MARK + ReplaceAll(rest, s)
  {
    var text := piece + s + rest;
    forall k | 0 <= k < |piece| ensures !OccursAt(text, s, k) { MatchStays(piece, s, rest, k); }
    Skipped(text, s, |piece|);
    assert text[|piece|..] == s + rest && text[..|piece|] == piece;
    AtMatch(s, rest);
  }

  /** A text whose only match is in the middle. */
  lemma OneMatch(p: string, t: string, r: string)
    requires t != "" && (forall i :: 0 <= i < |p| ==> !OccursAt(p + t + r, t, i)) && !Contains(r, t)
    ensures ReplaceAll(p + t + r, t) == p + MARK + r
  {
    forall k | 0 <= k < |p| ensures !OccursAt(p + t, t, k) { MatchStays(p, t, r, k); }
    FirstReplaced(p, t, r);
    ReplaceNothing(r, t);
  }

  /** Replacement keeps every piece between the matches and puts a mark for each match. */
  lemma {:induction false} ReplacePieces(text: string, s: string, pieces: seq<string>)
    requires s != "" && IsCut(text, s, pieces)
    ensures ReplaceAll(text, s) == Joined(pieces, MARK)
    decreases |pieces|
  {
    if |pieces| == 1 {
      ReplaceNothing(text, s);
    } else {
      var rest := Joined(pieces[1..], s);
      FirstReplaced(pieces[0], s, rest);
      ReplacePieces(rest, s, pieces[1..]);
    }
  }

  lemma {:induction false} FirstMatch(text: string, s: string, n: int) returns (i: int)
    requires OccursAt(text, s, n)
    ensures OccursAt(text, s, i) && forall k :: 0 <= k < i ==> !OccursAt(text, s, k)
    decreases n
  {
    i := n;
    if k :| 0 <= k < n && OccursAt(text, s, k) { i := FirstMatch(text, s, k); }
  }

  /** Every text has such pieces. */
  lemma {:induction false} Cut(text: string, s: string) returns (pieces: seq<string>)
    requires s != ""
    ensures IsCut(text, s, pieces)
    decreases |text|
  {
    if n :| OccursAt(text, s, n) {
      var i := FirstMatch(text, s, n);
      var piece, rest := text[..i], text[i + |s|..];
      assert text == piece + s + rest;
      forall k | 0 <= k < |piece| ensures !OccursAt(piece + s, s, k) { MatchStays(piece, s, rest, k); }
      var more := Cut(rest, s);
      pieces := [piece] + more;
      assert pieces[1..] == more;
    } else {
      pieces := [text];
    }
  }

  /** The parts of a secret before and after the mark it is placed in. */
  function Before(s: string, i: int): string
    requires -|s| < i
  {
    if i >= 0 then "" else s[..-i]
  }

  function After(s: string, i: int): string
    requires i < |MARK|
  {
    if i + |s| <= |MARK| then "" else s[|MARK| - i..]
  }

  lemma Completed(s: string, i: int)
    requires Meets(s, i)
    ensures Contains(Before(s, i) + MARK + After(s, i), s)
  {
    var p, r := Before(s, i), After(s, i);
    var whole, k := p + MARK + r, if i >= 0 then i else 0;
    forall j | 0 <= j < |s| ensures whole[k..k + |s|][j] == s[j] {
      assert whole[k..k + |s|][j] == whole[k + j];
    }
    assert OccursAt(whole, s, k);
  }

  /**
   However a secret overlaps the mark, a later secret brings it back: on the text in which that one
   stands where the mark would complete it, provided nothing registered before is found there.
   */
  lemma OverlapReappears(before: seq<string>, s: string, i: int, t: string)
    requires Meets(s, i) && "" !in before && t != ""
    requires var text := Before(s, i) + t + After(s, i);
      && (forall k :: 0 <= k < |before| ==> !Contains(text, before[k]))
      && (forall k :: 0 <= k < |Before(s, i)| ==> !OccursAt(text, t, k)) && !Contains(After(s, i), t)
    ensures Contains(RedactAll(Before(s, i) + t + After(s, i), before + [t]), s)
  {
    var p, r := Before(s, i), After(s, i);
    CleanTextKept(p + t + r, before);
    assert (before + [t])[..|before|] == before;
    OneMatch(p, t, r);
    Completed(s, i);
  }

  /** One character repeated: a secret longer than a given one, and of eight characters or more. */
  function Filler(c: char, s: string): (t: string)
    ensures |t| == |s| + 8 && forall i :: 0 <= i < |t| ==> t[i] == c
  {
    seq(|s| + 8, _ => c)
  }

  /** A character that is neither at an end of the secret nor at the end of what precedes the filler. */
  ghost predicate Apart(c: char, p: string, s: string) {
    s != "" && c != s[0] && c != s[|s| - 1] && (p != "" ==> c != p[|p| - 1])
  }

  lemma SomeApart(p: string, s: string) returns (c: char)
    requires s != ""
    ensures Apart(c, p, s)
  {
    var last := if p == "" then s[0] else p[|p| - 1];
    c := if 'a' !in {s[0], s[|s| - 1], last} then 'a'
         else if 'b' !in {s[0], s[|s| - 1], last} then 'b'
         else if 'c' !in {s[0], s[|s| - 1], last} then 'c' else 'd';
  }

  lemma FillerApart(p: string, r: string, s: string, c: char)
    requires Apart(c, p, s) && |p| < |s| && |r| < |s|
    ensures !Contains(p + Filler(c, s) + r, s) && !Contains(r, Filler(c, s))
    ensures forall k :: 0 <= k < |p| ==> !OccursAt(p + Filler(c, s) + r, Filler(c, s), k)
  {
    var t := Filler(c, s);
    var text := p + t + r;
    forall k ensures !OccursAt(text, s, k) {
      if 0 <= k <= |text| - |s| {
        var m := if k < |p| then |s| - 1 else 0;
        assert text[k..k + |s|][m] == text[k + m] == c;
      }
    }
    forall k | 0 <= k < |p| ensures !OccursAt(text, t, k) {
      var m := |p| - 1 - k;
      assert text[k..k + |t|][m] == text[k + m] == p[|p| - 1];
    }
  }

  /** Registered first, the secret is in no output, whatever text comes and whatever is registered after it. */
  ghost predicate Safe(s: string)
    requires s != ""
  {
    forall text, others: seq<string> :: "" !in others ==> !Contains(RedactAll(text, [s] + others), s)
  }

  /** The safe secrets are exactly those that do not overlap the mark. */
  lemma SafeExactly(s: string)
    requires s != ""
    ensures Safe(s) <==> !Overlaps(s)
  {
    if Overlaps(s) {
      var i :| Meets(s, i);
      NotSafe(s, i);
    } else {
      forall text, others: seq<string> | "" !in others ensures !Contains(RedactAll(text, [s] + others), s) {
        NoSecretLeft(text, [s] + others, s);
      }
    }
  }

  lemma NotSafe(s: string, i: int)
    requires s != "" && Meets(s, i)
    ensures !Safe(s)
  {
    var c := SomeApart(Before(s, i), s);
    BroughtBack(s, c, i);
    var others := [Filler(c, s)];
    assert "" !in others;
  }

  lemma BroughtBack(s: string, c: char, i: int)
    requires s != "" && Meets(s, i) && Apart(c, Before(s, i), s)
    ensures Contains(RedactAll(Before(s, i) + Filler(c, s) + After(s, i), [s] + [Filler(c, s)]), s)
  {
    var p, r := Before(s, i), After(s, i);
    assert |p| < |s| && |r| < |s|;
    FillerApart(p, r, s, c);
    OverlapReappears([s], s, i, Filler(c, s));
  }

  /** A mark outlasts the replacement of secrets that do not overlap it. */
  lemma {:induction false} MarkOutlasts(text: string, t: string)
    requires t != "" && !Overlaps(t) && Contains(text, MARK)
    ensures Contains(ReplaceAll(text, t), MARK)
    decreases |text|
  {
    var p :| OccursAt(text, MARK, p);
    var r := ReplaceAll(text, t);
    if t <= text {
      assert OccursAt(text, t, 0) by { assert text[0..|t|] == t; }
      if p < |t| { FoundAcross(text, t, 0, p); }
      assert text == t + text[|t|..];
      OccursShifted(t, text[|t|..], MARK, p);
      MarkOutlasts(text[|t|..], t);
      var q :| OccursAt(ReplaceAll(text[|t|..], t), MARK, q);
      OccursShifted(MARK, ReplaceAll(text[|t|..], t), MARK, q + |MARK|);
    } else if p > 0 {
      assert text == [text[0]] + text[1..];
      OccursShifted([text[0]], text[1..], MARK, p);
      MarkOutlasts(text[1..], t);
      var q :| OccursAt(ReplaceAll(text[1..], t), MARK, q);
      OccursShifted([text[0]], ReplaceAll(text[1..], t), MARK, q + 1);
    } else {
      forall k | 0 <= k < |MARK| ensures !OccursAt(text, t, k) {
        if OccursAt(text, t, k) { FoundAcross(text, t, k, 0); }
      }
      Skipped(text, t, |MARK|);
      assert r[0..|MARK|] == text[0..|MARK|];
      assert OccursAt(r, MARK, 0);
    }
  }

  lemma {:induction false} ReplacedMarks(text: string, s: string)
    requires s != "" && Contains(text, s)
    ensures Contains(ReplaceAll(text, s), MARK)
    decreases |text|
  {
    var i :| OccursAt(text, s, i);
    if s <= text {
      assert ReplaceAll(text, s)[0..|MARK|] == MARK;
      assert OccursAt(ReplaceAll(text, s), MARK, 0);
    } else {
      assert i > 0 && text == [text[0]] + text[1..];
      OccursShifted([text[0]], text[1..], s, i);
      ReplacedMarks(text[1..], s);
      var q :| OccursAt(ReplaceAll(text[1..], s), MARK, q);
      OccursShifted([text[0]], ReplaceAll(text[1..], s), MARK, q + 1);
    }
  }

  /**
   A secret that is part of the mark itself is in every output in which it or another secret was replaced,
   when the secrets after that one do not overlap the mark.
   */
  lemma {:induction false} MarkReveals(text: string, secrets: seq<string>, k: nat, s: string)
    requires "" !in secrets && k < |secrets| && Contains(MARK, s)
    requires Contains(RedactAll(text, secrets[..k]), secrets[k])
    requires forall l :: k < l < |secrets| ==> !Overlaps(secrets[l])
    ensures Contains(RedactAll(text, secrets), MARK) && Contains(RedactAll(text, secrets), s)
    decreases |secrets|
  {
    var n := |secrets| - 1;
    var before := RedactAll(text, secrets[..n]);
    if k == n {
      ReplacedMarks(before, secrets[n]);
    } else {
      assert secrets[..n][..k] == secrets[..k];
      MarkReveals(text, secrets[..n], k, s);
      MarkOutlasts(before, secrets[n]);
    }
    Inside(RedactAll(text, secrets), MARK, s);
  }

  lemma Inside(text: string, m: string, s: string)
    requires Contains(text, m) && Contains(m, s)
    ensures Contains(text, s)
  {
    var p :| OccursAt(text, m, p);
    var i :| OccursAt(m, s, i);
    forall j | 0 <= j < |s| ensures text[p + i..p + i + |s|][j] == s[j] {
      assert text[p + i..p + i + |s|][j] == text[p + (i + j)] == text[p..p + |m|][i + j];
      assert m[i..i + |s|][j] == m[i + j];
    }
    assert OccursAt(text, s, p + i);
  }

  // ---- The condition on the characters

  ghost predicate Bare(s: string) {
    forall i :: 0 <= i < |s| ==> s[i] != '[' && s[i] != ']'
  }

  /**
   Registered secrets, of eight characters or more, without brackets and other than the word itself, do not
   overlap.
   */
  lemma BareIsApart(s: string)
    requires |s| >= 8 && Bare(s) && s != "REDACTED"
    ensures !Overlaps(s)
  {
    forall i ensures !Meets(s, i) {
      if i <= 0 {
        if -|s| < i { assert MARK[0] == '['; assert s[-i] != MARK[i + -i]; }
      } else if i < 10 {
        NotPlaced(s, i);
      }
    }
  }

  lemma NotPlaced(s: string, i: int)
    requires |s| >= 8 && Bare(s) && s != "REDACTED" && 0 < i < 10
    ensures !Meets(s, i)
  {
    if i == 1 && |s| == 8 {
      assert MARK[1..9] == "REDACTED";
      var j :| 0 <= j < 8 && s[j] != "REDACTED"[j];
      assert MARK[1..9][j] == MARK[1 + j];
    } else {
      assert MARK[9] == ']' && s[9 - i] != MARK[i + (9 - i)];
    }
  }

  /** The values of the given configuration keys that are long enough to be secrets. */
  function Registered(config: map<string, string>, keys: seq<string>): set<string> {
    set k | k in keys && k in config && |config[k]| >= 8 :: config[k]
  }

  ghost predicate IsValueOf(config: map<string, string>, k: string, s: string) { k in config && config[k] == s }

  /** A value is registered exactly when it is at least eight characters long and belongs to one of four keys. */
  lemma RegisteredAre(config: map<string, string>, s: string)
    ensures s in Registered(config, SENSITIVE_KEYS) <==>
      |s| >= 8 && (IsValueOf(config, "API_TOKEN", s) || IsValueOf(config, "MESH_SECRET", s) ||
                   IsValueOf(config, "PKI_SECRET", s) || IsValueOf(config, "SECURE_BYPASS_TOKEN", s))
  {
    assert SENSITIVE_KEYS[0] == "API_TOKEN" && SENSITIVE_KEYS[1] == "MESH_SECRET";
    assert SENSITIVE_KEYS[2] == "PKI_SECRET" && SENSITIVE_KEYS[3] == "SECURE_BYPASS_TOKEN";
  }

  class SecretRedactor {
    // A set that remembers the order of insertion
    var secrets: seq<string>

    ghost predicate Valid()
      reads this
    {
      (forall i :: 0 <= i < |secrets| ==> |secrets[i]| >= 8) &&
      (forall i, j :: 0 <= i < j < |secrets| ==> secrets[i] != secrets[j])
    }

    constructor (config: map<string, string>)
      ensures Valid() && (set s | s in secrets) == Registered(config, SENSITIVE_KEYS)
    {
      secrets := [];
      new;
      UpdateSecrets(config);
    }

    method Add(value: string)
      requires Valid() && |value| >= 8
      modifies this
      ensures Valid() && old(secrets) <= secrets
      ensures (set s | s in secrets) == (set s | s in old(secrets)) + {value}
    {
      if value !in secrets { secrets := secrets + [value]; }
    }

    method UpdateSecrets(config: map<string, string>)
      requires Valid()
      modifies this
      ensures Valid() && old(secrets) <= secrets
      ensures (set s | s in secrets) == (set s | s in old(secrets)) + Registered(config, SENSITIVE_KEYS)
    {
      for i := 0 to |SENSITIVE_KEYS|
        invariant Valid() && old(secrets) <= secrets
        invariant (set s | s in secrets) ==
                  (set s | s in old(secrets)) + Registered(config, SENSITIVE_KEYS[..i])
      {
        var key := SENSITIVE_KEYS[i];
        assert SENSITIVE_KEYS[..i + 1] == SENSITIVE_KEYS[..i] + [key];
        if key in config && |config[key]| >= 8 { Add(config[key]); }
      }
      assert SENSITIVE_KEYS[..|SENSITIVE_KEYS|] == SENSITIVE_KEYS;
    }

    method Redact(text: string) returns (redacted: string)
      requires Valid()
      ensures "" !in secrets && redacted == RedactAll(text, secrets)
      ensures forall s :: s in secrets && !Overlaps(s) ==> !Contains(redacted, s)
      ensures forall s :: s in secrets && Bare(s) && s != "REDACTED" ==> !Contains(redacted, s)
      ensures (forall i :: 0 <= i < |secrets| ==> !Contains(text, secrets[i])) ==> redacted == text
    {
      redacted := text;
      for i := 0 to |secrets|
        invariant redacted == RedactAll(text, secrets[..i])
      {
        assert secrets[..i + 1][..i] == secrets[..i];
        redacted := ReplaceAll(redacted, secrets[i]);
      }
      assert secrets[..|secrets|] == secrets;
      forall s | s in secrets && !Overlaps(s) ensures !Contains(redacted, s) { NoSecretLeft(text, secrets, s); }
      forall s | s in secrets && Bare(s) && s != "REDACTED" ensures !Overlaps(s) { BareIsApart(s); }
      if forall i :: 0 <= i < |secrets| ==> !Contains(text, secrets[i]) { CleanTextKept(text, secrets); }
    }
  }

}
