/**
 The canonical serializer under every hash and signature: its text, its depth and
 breadth limits, and the proof that the text determines the value up to the order
 of object members.
 */
module CanonicalJson {

  /**
   A value as the serializer meets it. A number is given by its token (section 6 of RFC 8259);
   the i-th key of an object has the i-th of its values.
   */
  datatype Json =
    | Undefined
    | Null
    | Bool(b: bool)
    | Number(token: string)
    | Text(s: string)
    | Array(items: seq<Json>)
    | Object(keys: seq<string>, vals: seq<Json>)

  const MAX_DEPTH: nat := 10
  const MAX_BREADTH: nat := 100

  // ---- String tokens (section 7 of RFC 8259)

  function HexDigit(n: nat): char
    requires n < 16
  {
    "0123456789abcdef"[n]
  }

  function EscapeChar(c: char): string {
    if c == '"' then "\\\""
    else if c == '\\' then "\\\\"
    else if c == '\U{8}' then "\\b"
    else if c == '\t' then "\\t"
    else if c == '\n' then "\\n"
    else if c == '\U{c}' then "\\f"
    else if c == '\r' then "\\r"
    else if c < ' ' then "\\u00" + [HexDigit(c as nat / 16), HexDigit(c as nat % 16)]
    else [c]
  }

  function Spell(code: char -> string, s: string): string {
    if s == "" then "" else code(s[0]) + Spell(code, s[1..])
  }

  function Quote(s: string): string { "\"" + Spell(EscapeChar, s) + "\"" }

  // ---- Sorted keys

  /** The order of `sort` on strings: by character, a prefix first. */
  predicate Below(a: string, b: string) {
    b != "" && (a == "" || a[0] < b[0] || (a[0] == b[0] && Below(a[1..], b[1..])))
  }

  function Insert(k: string, ks: seq<string>): seq<string> {
    if ks == [] then [k]
    else if Below(ks[0], k) then [ks[0]] + Insert(k, ks[1..])
    else [k] + ks
  }

  function SortKeys(ks: seq<string>): seq<string> {
    if ks == [] then [] else Insert(ks[0], SortKeys(ks[1..]))
  }

  function IndexOf(ks: seq<string>, k: string): (i: nat)
    requires k in ks
    ensures i < |ks| && ks[i] == k
  {
    if ks[0] == k then 0 else 1 + IndexOf(ks[1..], k)
  }

  /** The value of a member, `record[key]`. */
  function Member(v: Json, k: string): (w: Json)
    requires v.Object? && |v.keys| == |v.vals| && k in v.keys
    ensures w in v.vals
  {
    v.vals[IndexOf(v.keys, k)]
  }

  ghost predicate Distinct(ks: seq<string>) {
    forall i, j :: 0 <= i < j < |ks| ==> ks[i] != ks[j]
  }

  ghost predicate Ascending(ks: seq<string>) {
    forall i, j :: 0 <= i < j < |ks| ==> Below(ks[i], ks[j])
  }

  lemma {:induction false} BelowTotal(a: string, b: string)
    ensures a == b || Below(a, b) || Below(b, a)
    ensures !(Below(a, b) && Below(b, a)) && !Below(a, a)
    decreases |a|
  {
    if a != "" {
      if b != "" && a[0] == b[0] {
        BelowTotal(a[1..], b[1..]);
        assert a == [a[0]] + a[1..] && b == [b[0]] + b[1..];
      }
      BelowTotal(a[1..], a[1..]);
    }
  }

  lemma {:induction false} BelowTransitive(a: string, b: string, c: string)
    requires Below(a, b) && Below(b, c)
    ensures Below(a, c)
    decreases |a|
  {
    if a != "" && a[0] == b[0] && b[0] == c[0] { BelowTransitive(a[1..], b[1..], c[1..]); }
  }

  /** After n common characters the first text ends, or goes on with a lower character. */
  ghost predicate LowerFrom(a: string, b: string, n: nat) {
    n <= |a| && n < |b| && a[..n] == b[..n] && (n < |a| ==> a[n] < b[n])
  }

  /** One text is below another when it is a proper prefix, or lower where they first differ. */
  lemma {:induction false} BelowMeans(a: string, b: string)
    ensures Below(a, b) <==> exists n: nat :: LowerFrom(a, b, n)
    decreases |a|
  {
    if a == "" || b == "" || a[0] != b[0] {
      forall n: nat ensures LowerFrom(a, b, n) && n > 0 ==> a != "" && b != "" && a[0] == b[0] { LowerFirst(a, b, n); }
      assert Below(a, b) ==> LowerFrom(a, b, 0);
    } else {
      BelowMeans(a[1..], b[1..]);
      if n: nat :| LowerFrom(a[1..], b[1..], n) { LowerLonger(a, b, n); }
      if n: nat :| LowerFrom(a, b, n) { LowerShorter(a, b, n); }
    }
  }

  lemma LowerFirst(a: string, b: string, n: nat)
    ensures LowerFrom(a, b, n) && n > 0 ==> a != "" && b != "" && a[0] == b[0]
  {
    if LowerFrom(a, b, n) && n > 0 { assert a[0] == a[..n][0] == b[..n][0] == b[0]; }
  }

  lemma LowerLonger(a: string, b: string, n: nat)
    requires a != "" && b != "" && a[0] == b[0] && LowerFrom(a[1..], b[1..], n)
    ensures LowerFrom(a, b, n + 1)
  {
    assert a[..n + 1] == [a[0]] + a[1..][..n] && b[..n + 1] == [b[0]] + b[1..][..n];
  }

  lemma LowerShorter(a: string, b: string, n: nat)
    requires a != "" && b != "" && a[0] == b[0] && LowerFrom(a, b, n)
    ensures n > 0 && LowerFrom(a[1..], b[1..], n - 1)
  {
    assert a[1..][..n - 1] == a[..n][1..] && b[1..][..n - 1] == b[..n][1..];
  }

  lemma {:induction false} InsertSorted(k: string, ks: seq<string>)
    requires Ascending(ks) && k !in ks
    ensures Ascending(Insert(k, ks))
    ensures forall x :: x in Insert(k, ks) <==> x == k || x in ks
    ensures |Insert(k, ks)| == |ks| + 1
  {
    if ks != [] {
      var r := Insert(k, ks);
      BelowTotal(ks[0], k);
      if Below(ks[0], k) {
        InsertSorted(k, ks[1..]);
        forall x | x in Insert(k, ks[1..]) ensures Below(ks[0], x) {
          if x != k { var i :| 0 <= i < |ks[1..]| && ks[1..][i] == x; assert Below(ks[0], ks[i + 1]); }
        }
        assert ks == [ks[0]] + ks[1..];
      } else {
        forall i | 0 <= i < |ks| ensures Below(k, ks[i]) {
          if i > 0 { BelowTransitive(k, ks[0], ks[i]); }
        }
      }
    }
  }

  lemma {:induction false} SortKeysSorted(ks: seq<string>)
    requires Distinct(ks)
    ensures Ascending(SortKeys(ks)) && |SortKeys(ks)| == |ks|
    ensures forall x :: x in SortKeys(ks) <==> x in ks
  {
    if ks != [] {
      SortKeysSorted(ks[1..]);
      InsertSorted(ks[0], SortKeys(ks[1..]));
      assert ks == [ks[0]] + ks[1..];
    }
  }

  /** Ascending lists with the same elements are the same list. */
  lemma {:induction false} AscendingUnique(a: seq<string>, b: seq<string>)
    requires Ascending(a) && Ascending(b)
    requires forall x :: x in a <==> x in b
    ensures a == b
  {
    if a != [] && b != [] {
      assert a[0] in a && a[0] in b;
      assert b[0] in b && b[0] in a;
      BelowTotal(a[0], b[0]);
      assert a == [a[0]] + a[1..] && b == [b[0]] + b[1..];
      TailMembers(a);
      TailMembers(b);
      AscendingUnique(a[1..], b[1..]);
    } else if a != [] {
      HasElement(a);
    } else if b != [] {
      HasElement(b);
    }
  }

  lemma HasElement(a: seq<string>)
    requires a != []
    ensures exists x :: x in a
  {
    assert a[0] in a;
  }

  lemma TailMembers(a: seq<string>)
    requires Ascending(a) && a != []
    ensures forall x :: x in a[1..] <==> x in a && x != a[0]
  {
    BelowTotal(a[0], a[0]);
    forall x ensures x in a[1..] <==> x in a && x != a[0] {
      if x in a[1..] {
        var i :| 0 <= i < |a| - 1 && a[1..][i] == x;
        assert Below(a[0], a[i + 1]);
      }
      if x in a && x != a[0] {
        var i :| 0 <= i < |a| && a[i] == x;
        assert a[1..][i - 1] == x;
      }
    }
  }

  // ---- The text

  function Canon(v: Json): string
    decreases v, 2
  {
    match v
    case Undefined => "undefined"
    case Null => "null"
    case Bool(b) => if b then "true" else "false"
    case Number(token) => token
    case Text(s) => Quote(s)
    case Array(items) => "[" + ItemsText(items)
    case Object(keys, vals) => if |keys| == |vals| then "{" + MembersText(v, SortedKeys(v)) else ""
  }

  function SortedKeys(v: Json): (ks: seq<string>)
    requires v.Object?
    ensures forall i :: 0 <= i < |ks| ==> ks[i] in v.keys
  {
    SortKeysMembers(v.keys);
    SortKeys(v.keys)
  }

  /** An item that is `undefined` joins as the empty string. */
  function ItemText(v: Json): string
    decreases v, 3
  {
    if v.Undefined? then "" else Canon(v)
  }

  /** The items joined by commas, and the closing bracket. */
  function ItemsText(items: seq<Json>): string
    decreases items, 1
  {
    if items == [] then "]"
    else if |items| == 1 then ItemText(items[0]) + "]"
    else ItemText(items[0]) + "," + ItemsText(items[1..])
  }

  function MemberText(v: Json, k: string): string
    requires v.Object? && |v.keys| == |v.vals| && k in v.keys
    decreases v, 0
  {
    Quote(k) + ":" + Canon(Member(v, k))
  }

  /** The members of v under the given keys joined by commas, and the closing brace. */
  function MembersText(v: Json, ks: seq<string>): string
    requires v.Object? && |v.keys| == |v.vals| && forall i :: 0 <= i < |ks| ==> ks[i] in v.keys
    decreases v, 1, ks
  {
    if ks == [] then "}"
    else if |ks| == 1 then MemberText(v, ks[0]) + "}"
    else MemberText(v, ks[0]) + "," + MembersText(v, ks[1..])
  }

  lemma {:induction false} InsertMembers(k: string, ks: seq<string>)
    ensures forall x :: x in Insert(k, ks) <==> x == k || x in ks
  {
    if ks != [] {
      InsertMembers(k, ks[1..]);
      assert ks == [ks[0]] + ks[1..];
    }
  }

  lemma {:induction false} SortKeysMembers(ks: seq<string>)
    ensures forall x :: x in SortKeys(ks) <==> x in ks
  {
    if ks != [] {
      SortKeysMembers(ks[1..]);
      InsertMembers(ks[0], SortKeys(ks[1..]));
      assert ks == [ks[0]] + ks[1..];
    }
  }

  // ---- Values

  predicate IsNumberChar(c: char) {
    '0' <= c <= '9' || c == '-' || c == '+' || c == '.' || c == 'e' || c == 'E'
  }

  /** What matters of a number token: its characters, and that it starts with a digit or a minus sign. */
  ghost predicate IsNumberToken(t: string) {
    && t != "" && (t[0] == '-' || '0' <= t[0] <= '9')
    && forall i :: 0 <= i < |t| ==> IsNumberChar(t[i])
  }

  /** Values that JavaScript can build: number tokens are numbers and keys are distinct. */
  ghost predicate WellFormed(v: Json) {
    match v
    case Number(token) => IsNumberToken(token)
    case Array(items) => forall i :: 0 <= i < |items| ==> WellFormed(items[i])
    case Object(keys, vals) =>
      |keys| == |vals| && Distinct(keys) && forall i :: 0 <= i < |vals| ==> WellFormed(vals[i])
    case _ => true
  }

  /** No array anywhere in the value is exactly [undefined]. */
  ghost predicate NoHole(v: Json) {
    match v
    case Array(items) => items != [Undefined] && forall i :: 0 <= i < |items| ==> NoHole(items[i])
    case Object(keys, vals) => forall i :: 0 <= i < |vals| ==> NoHole(vals[i])
    case _ => true
  }

  /** Equality up to the order of object members. */
  ghost predicate Same(v: Json, w: Json)
    decreases v
  {
    if v.Array? && w.Array? then
      |v.items| == |w.items| && forall i :: 0 <= i < |v.items| ==> Same(v.items[i], w.items[i])
    else if v.Object? && w.Object? then
      && |v.keys| == |v.vals| && |w.keys| == |w.vals|
      && (forall k :: k in v.keys <==> k in w.keys)
      && forall k :: k in v.keys && k in w.keys ==> Same(Member(v, k), Member(w, k))
    else v == w
  }

  lemma MemberAt(v: Json, i: nat)
    requires v.Object? && |v.keys| == |v.vals| && Distinct(v.keys) && i < |v.keys|
    ensures v.keys[i] in v.keys && Member(v, v.keys[i]) == v.vals[i]
  {
    assert IndexOf(v.keys, v.keys[i]) == i;
  }

  /** Objects with the same keys in the same order agree where their values do. */
  lemma {:induction false} AlignedSame(v: Json, w: Json)
    requires v.Object? && w.Object? && v.keys == w.keys && |v.keys| == |v.vals| == |w.vals|
    requires forall i :: 0 <= i < |v.vals| ==> Same(v.vals[i], w.vals[i])
    ensures Same(v, w)
  {
    forall k | k in v.keys && k in w.keys ensures Same(Member(v, k), Member(w, k)) {
      var i := IndexOf(v.keys, k);
      assert Member(v, k) == v.vals[i] && Member(w, k) == w.vals[i];
    }
  }

  lemma {:induction false} SameAligned(v: Json, w: Json, i: nat)
    requires v.Object? && w.Object? && v.keys == w.keys && |v.keys| == |v.vals| == |w.vals| && Distinct(v.keys)
    requires Same(v, w) && i < |v.vals|
    ensures Same(v.vals[i], w.vals[i])
  {
    MemberAt(v, i);
    MemberAt(w, i);
  }

  // ---- Unique decoding

  /** What may follow a value in a text. */
  ghost predicate Follow(s: string) { s == "" || s[0] == ',' || s[0] == ']' || s[0] == '}' }

  predicate Plain(c: char) { c >= ' ' && c != '"' && c != '\\' }

  predicate Named(c: char) {
    c == '"' || c == '\\' || c == '\U{8}' || c == '\t' || c == '\n' || c == '\U{c}' || c == '\r'
  }

  /** The letter after the backslash of a two-character escape. */
  function NameOf(c: char): char
    requires Named(c)
  {
    if c == '\U{8}' then 'b' else if c == '\t' then 't' else if c == '\n' then 'n'
    else if c == '\U{c}' then 'f' else if c == '\r' then 'r' else c
  }

  lemma EscapeShape(c: char)
    ensures Plain(c) ==> EscapeChar(c) == [c]
    ensures Named(c) ==> EscapeChar(c) == ['\\', NameOf(c)]
    ensures !Plain(c) && !Named(c) ==> c < ' '
    ensures !Plain(c) && !Named(c) ==>
      EscapeChar(c) == ['\\', 'u', '0', '0', HexDigit(c as nat / 16), HexDigit(c as nat % 16)]
  {}

  /** No escape is a prefix of another. */
  lemma EscapeCharUnique(c: char, d: char, s: string, t: string)
    requires EscapeChar(c) + s == EscapeChar(d) + t
    ensures c == d && s == t
  {
    var x, y := EscapeChar(c) + s, EscapeChar(d) + t;
    EscapeShape(c);
    EscapeShape(d);
    assert x[0] == y[0];
    if !Plain(c) {
      assert x[1] == y[1];
      if !Named(c) {
        assert x[4] == y[4] && x[5] == y[5];
      }
    }
    assert c == d;
    assert s == x[|EscapeChar(c)|..] == t;
  }

  /** No code word is a prefix of another, and none starts with a quote. */
  ghost predicate PrefixFree(code: char -> string) {
    && (forall c: char :: code(c) != "" && code(c)[0] != '"')
    && (forall c, d, s, t :: code(c) + s == code(d) + t ==> c == d && s == t)
  }

  lemma EscapePrefixFree()
    ensures PrefixFree(EscapeChar)
  {
    forall c, d, s, t | EscapeChar(c) + s == EscapeChar(d) + t ensures c == d && s == t {
      EscapeCharUnique(c, d, s, t);
    }
  }

  lemma SpellStep(code: char -> string, a: string, s: string)
    requires a != ""
    ensures Spell(code, a) + s == code(a[0]) + (Spell(code, a[1..]) + s)
  {}

  lemma {:induction false} SpellUnique(code: char -> string, a: string, b: string, s: string, t: string)
    requires PrefixFree(code)
    requires s != "" && s[0] == '"' && t != "" && t[0] == '"'
    requires Spell(code, a) + s == Spell(code, b) + t
    ensures a == b && s == t
    decreases |a|
  {
    if a != "" { SpellStep(code, a, s); } else { assert Spell(code, a) + s == s; }
    if b != "" { SpellStep(code, b, t); } else { assert Spell(code, b) + t == t; }
    if a != "" && b != "" {
      SpellUnique(code, a[1..], b[1..], s, t);
      assert a == [a[0]] + a[1..] && b == [b[0]] + b[1..];
    }
  }

  lemma QuoteParts(a: string, s: string)
    ensures Quote(a) + s == "\"" + (Spell(EscapeChar, a) + ("\"" + s))
  {}

  lemma {:induction false} Behead<T>(c: T, s: seq<T>, d: T, t: seq<T>)
    requires [c] + s == [d] + t
    ensures c == d && s == t
  {
    var x, y := [c] + s, [d] + t;
    assert x[0] == y[0] && x[1..] == s && y[1..] == t;
  }

  lemma QuoteUnique(a: string, b: string, s: string, t: string)
    requires Quote(a) + s == Quote(b) + t
    ensures a == b && s == t
  {
    var u, w := "\"" + s, "\"" + t;
    QuoteParts(a, s);
    QuoteParts(b, t);
    Behead('"', Spell(EscapeChar, a) + u, '"', Spell(EscapeChar, b) + w);
    EscapePrefixFree();
    SpellUnique(EscapeChar, a, b, u, w);
    Behead('"', s, '"', t);
  }

  /** A number token is the longest run of number characters. */
  lemma {:induction false} NumberUnique(a: string, b: string, s: string, t: string)
    requires forall i :: 0 <= i < |a| ==> IsNumberChar(a[i])
    requires forall i :: 0 <= i < |b| ==> IsNumberChar(b[i])
    requires Follow(s) && Follow(t) && a + s == b + t
    ensures a == b && s == t
  {
    if a == "" || b == "" {
      if a == "" { assert a + s == s; }
      if b == "" { assert b + t == t; }
    } else {
      assert a[0] == (a + s)[0] == b[0];
      assert (a + s)[1..] == a[1..] + s && (b + t)[1..] == b[1..] + t;
      NumberUnique(a[1..], b[1..], s, t);
      assert a == [a[0]] + a[1..] && b == [b[0]] + b[1..];
    }
  }

  lemma SamePrefix(p: string, s: string, t: string)
    requires p + s == p + t
    ensures s == t
  {
    assert s == (p + s)[|p|..] == t;
  }

  /** The first character of a text tells the kind of the value. */
  function Head(v: Json): char {
    match v
    case Undefined => 'u'
    case Null => 'n'
    case Bool(b) => if b then 't' else 'f'
    case Number(token) => if token == "" then '0' else token[0]
    case Text(s) => '"'
    case Array(items) => '['
    case Object(keys, vals) => '{'
  }

  lemma HeadOf(v: Json, s: string)
    requires WellFormed(v)
    ensures Canon(v) != "" && (Canon(v) + s)[0] == Head(v)
  {}

  /** What follows the first item in the text of an array. */
  ghost function AfterItem(items: seq<Json>, s: string): string
    requires items != []
  {
    if |items| == 1 then "]" + s else "," + (ItemsText(items[1..]) + s)
  }

  lemma ItemsStep(items: seq<Json>, s: string)
    requires items != []
    ensures ItemsText(items) + s == ItemText(items[0]) + AfterItem(items, s)
  {}

  /** What follows the first member in the text of an object. */
  ghost function AfterMember(v: Json, ks: seq<string>, s: string): string
    requires v.Object? && |v.keys| == |v.vals| && ks != [] && forall i :: 0 <= i < |ks| ==> ks[i] in v.keys
  {
    if |ks| == 1 then "}" + s else "," + (MembersText(v, ks[1..]) + s)
  }

  lemma Regroup(q: string, b: string, c: string, d: string, s: string)
    ensures q + b + c + d + s == q + (b + (c + (d + s)))
  {}

  lemma MembersStep(v: Json, ks: seq<string>, s: string)
    requires v.Object? && |v.keys| == |v.vals| && ks != [] && forall i :: 0 <= i < |ks| ==> ks[i] in v.keys
    ensures MembersText(v, ks) + s == Quote(ks[0]) + (":" + (Canon(Member(v, ks[0])) + AfterMember(v, ks, s)))
  {
    var q, c := Quote(ks[0]), Canon(Member(v, ks[0]));
    if |ks| == 1 {
      Regroup(q, ":", c, "}", s);
    } else {
      var rest := MembersText(v, ks[1..]);
      assert q + ":" + c + "," + rest + s == q + ":" + c + "," + (rest + s);
      Regroup(q, ":", c, ",", rest + s);
    }
  }

  lemma {:induction false} UniqueItem(x: Json, y: Json, s: string, t: string)
    requires WellFormed(x) && WellFormed(y) && NoHole(x) && NoHole(y)
    requires s != "" && t != "" && Follow(s) && Follow(t)
    requires ItemText(x) + s == ItemText(y) + t
    ensures Same(x, y) && s == t
    decreases x, 4
  {
    HeadOf(x, s);
    HeadOf(y, t);
    if x.Undefined? || y.Undefined? {
      assert "" + s == s && "" + t == t;
    } else {
      Unique(x, y, s, t);
    }
  }

  lemma {:induction false} UniqueItems(xs: seq<Json>, ys: seq<Json>, s: string, t: string)
    requires forall i :: 0 <= i < |xs| ==> WellFormed(xs[i]) && NoHole(xs[i])
    requires forall i :: 0 <= i < |ys| ==> WellFormed(ys[i]) && NoHole(ys[i])
    requires xs != [] && ys != [] && ItemsText(xs) + s == ItemsText(ys) + t
    ensures |xs| == |ys| && (forall i :: 0 <= i < |xs| ==> Same(xs[i], ys[i])) && s == t
    decreases xs, 1
  {
    ItemsStep(xs, s);
    ItemsStep(ys, t);
    UniqueItem(xs[0], ys[0], AfterItem(xs, s), AfterItem(ys, t));
    if |xs| == 1 || |ys| == 1 {
      assert AfterItem(xs, s)[0] == AfterItem(ys, t)[0];
      Behead(']', s, ']', t);
    } else {
      Behead(',', ItemsText(xs[1..]) + s, ',', ItemsText(ys[1..]) + t);
      UniqueItems(xs[1..], ys[1..], s, t);
      forall i | 0 <= i < |xs| ensures Same(xs[i], ys[i]) {
        if i > 0 { assert xs[i] == xs[1..][i - 1] && ys[i] == ys[1..][i - 1]; }
      }
    }
  }

  lemma {:induction false} UniqueFirstMember(v: Json, w: Json, ks: seq<string>, ls: seq<string>, s: string, t: string)
    requires v.Object? && w.Object? && WellFormed(v) && WellFormed(w) && NoHole(v) && NoHole(w)
    requires forall i :: 0 <= i < |ks| ==> ks[i] in v.keys
    requires forall i :: 0 <= i < |ls| ==> ls[i] in w.keys
    requires ks != [] && ls != [] && MembersText(v, ks) + s == MembersText(w, ls) + t
    ensures ks[0] == ls[0] && Same(Member(v, ks[0]), Member(w, ks[0]))
    ensures AfterMember(v, ks, s) == AfterMember(w, ls, t)
    decreases v, 0
  {
    MembersStep(v, ks, s);
    MembersStep(w, ls, t);
    var m, n := Member(v, ks[0]), Member(w, ls[0]);
    var r, q := AfterMember(v, ks, s), AfterMember(w, ls, t);
    QuoteUnique(ks[0], ls[0], ":" + (Canon(m) + r), ":" + (Canon(n) + q));
    Behead(':', Canon(m) + r, ':', Canon(n) + q);
    Unique(m, n, r, q);
  }

  lemma {:induction false} UniqueMembers(v: Json, w: Json, ks: seq<string>, ls: seq<string>, s: string, t: string)
    requires v.Object? && w.Object? && WellFormed(v) && WellFormed(w) && NoHole(v) && NoHole(w)
    requires forall i :: 0 <= i < |ks| ==> ks[i] in v.keys
    requires forall i :: 0 <= i < |ls| ==> ls[i] in w.keys
    requires ks != [] && ls != [] && MembersText(v, ks) + s == MembersText(w, ls) + t
    ensures ks == ls && (forall i :: 0 <= i < |ks| ==> Same(Member(v, ks[i]), Member(w, ks[i]))) && s == t
    decreases v, 1, |ks|
  {
    UniqueFirstMember(v, w, ks, ls, s, t);
    AfterTogether(v, w, ks, ls, s, t);
    if |ks| > 1 {
      UniqueMembers(v, w, ks[1..], ls[1..], s, t);
      JoinMembers(v, w, ks, ls);
    }
  }

  /** Two objects with the same first member and the same text after it end together or go on together. */
  lemma AfterTogether(v: Json, w: Json, ks: seq<string>, ls: seq<string>, s: string, t: string)
    requires v.Object? && w.Object? && |v.keys| == |v.vals| && |w.keys| == |w.vals|
    requires ks != [] && forall i :: 0 <= i < |ks| ==> ks[i] in v.keys
    requires ls != [] && forall i :: 0 <= i < |ls| ==> ls[i] in w.keys
    requires AfterMember(v, ks, s) == AfterMember(w, ls, t)
    ensures |ks| == 1 <==> |ls| == 1
    ensures |ks| == 1 ==> s == t
    ensures |ks| > 1 ==> MembersText(v, ks[1..]) + s == MembersText(w, ls[1..]) + t
  {
    var c, d := if |ks| == 1 then '}' else ',', if |ls| == 1 then '}' else ',';
    var r := if |ks| == 1 then s else MembersText(v, ks[1..]) + s;
    var q := if |ls| == 1 then t else MembersText(w, ls[1..]) + t;
    Behead(c, r, d, q);
  }

  lemma JoinMembers(v: Json, w: Json, ks: seq<string>, ls: seq<string>)
    requires v.Object? && w.Object? && |v.keys| == |v.vals| && |w.keys| == |w.vals| && ks != [] && ls != []
    requires forall i :: 0 <= i < |ks| ==> ks[i] in v.keys && ks[i] in w.keys
    requires ks[0] == ls[0] && ks[1..] == ls[1..] && Same(Member(v, ks[0]), Member(w, ks[0]))
    requires forall i :: 0 <= i < |ks[1..]| ==> Same(Member(v, ks[1..][i]), Member(w, ks[1..][i]))
    ensures ks == ls && forall i :: 0 <= i < |ks| ==> Same(Member(v, ks[i]), Member(w, ks[i]))
  {
    assert ks == [ks[0]] + ks[1..] && ls == [ls[0]] + ls[1..];
    forall i | 0 <= i < |ks| ensures Same(Member(v, ks[i]), Member(w, ks[i])) {
      if i > 0 { assert ks[i] == ks[1..][i - 1]; }
    }
  }

  /** The text of a value, followed by what may follow it, determines both the value and the rest. */
  lemma {:induction false} Unique(v: Json, w: Json, s: string, t: string)
    requires WellFormed(v) && WellFormed(w) && NoHole(v) && NoHole(w)
    requires Follow(s) && Follow(t) && Canon(v) + s == Canon(w) + t
    ensures Same(v, w) && s == t
    decreases v, 3
  {
    HeadOf(v, s);
    HeadOf(w, t);
    if v.Number? && w.Number? {
      NumberUnique(v.token, w.token, s, t);
    } else if v.Text? && w.Text? {
      QuoteUnique(v.s, w.s, s, t);
    } else if v.Array? && w.Array? {
      UniqueArray(v, w, s, t);
    } else if v.Object? && w.Object? {
      UniqueObject(v, w, s, t);
    } else {
      SamePrefix(Canon(v), s, t);
    }
  }

  lemma {:induction false} UniqueArray(v: Json, w: Json, s: string, t: string)
    requires v.Array? && w.Array? && WellFormed(v) && WellFormed(w) && NoHole(v) && NoHole(w)
    requires Canon(v) + s == Canon(w) + t
    ensures Same(v, w) && s == t
    decreases v, 2
  {
    assert Canon(v) + s == ['['] + (ItemsText(v.items) + s);
    assert Canon(w) + t == ['['] + (ItemsText(w.items) + t);
    Behead('[', ItemsText(v.items) + s, '[', ItemsText(w.items) + t);
    if v.items != [] && w.items != [] {
      UniqueItems(v.items, w.items, s, t);
    } else if v.items == [] && w.items == [] {
      Behead(']', s, ']', t);
    } else if v.items == [] {
      NotClosed(w.items, t);
    } else {
      NotClosed(v.items, s);
    }
  }

  lemma HeadNotClosing(v: Json)
    requires WellFormed(v)
    ensures Head(v) != ']' && Head(v) != '}'
  {}

  /** Only the empty array and [undefined] close at once. */
  lemma NotClosed(items: seq<Json>, s: string)
    requires items != [] && items != [Undefined] && forall i :: 0 <= i < |items| ==> WellFormed(items[i])
    ensures ItemsText(items) + s != "" && (ItemsText(items) + s)[0] != ']'
  {
    ItemsStep(items, s);
    if items[0].Undefined? {
      assert "" + AfterItem(items, s) == AfterItem(items, s);
    } else {
      HeadOf(items[0], AfterItem(items, s));
      HeadNotClosing(items[0]);
    }
  }

  lemma MembersOpen(v: Json, ks: seq<string>, s: string)
    requires v.Object? && |v.keys| == |v.vals| && forall i :: 0 <= i < |ks| ==> ks[i] in v.keys
    ensures MembersText(v, ks) + s != ""
    ensures (MembersText(v, ks) + s)[0] == if ks == [] then '}' else '"'
  {
    if ks != [] { MembersStep(v, ks, s); }
  }

  lemma SameObjects(v: Json, w: Json)
    requires v.Object? && w.Object? && WellFormed(v) && WellFormed(w) && SortedKeys(v) == SortedKeys(w)
    requires forall i :: 0 <= i < |SortedKeys(v)| ==> Same(Member(v, SortedKeys(v)[i]), Member(w, SortedKeys(v)[i]))
    ensures Same(v, w)
  {
    var ks := SortedKeys(v);
    SortKeysMembers(v.keys);
    SortKeysMembers(w.keys);
    forall k | k in v.keys && k in w.keys ensures Same(Member(v, k), Member(w, k)) {
      assert k in ks;
      var i :| 0 <= i < |ks| && ks[i] == k;
    }
  }

  lemma {:induction false} UniqueObject(v: Json, w: Json, s: string, t: string)
    requires v.Object? && w.Object? && WellFormed(v) && WellFormed(w) && NoHole(v) && NoHole(w)
    requires Canon(v) + s == Canon(w) + t
    ensures Same(v, w) && s == t
    decreases v, 2
  {
    var ks, ls := SortedKeys(v), SortedKeys(w);
    assert Canon(v) + s == ['{'] + (MembersText(v, ks) + s);
    assert Canon(w) + t == ['{'] + (MembersText(w, ls) + t);
    Behead('{', MembersText(v, ks) + s, '{', MembersText(w, ls) + t);
    MembersOpen(v, ks, s);
    MembersOpen(w, ls, t);
    if ks != [] {
      UniqueMembers(v, w, ks, ls, s, t);
    } else {
      Behead('}', s, '}', t);
    }
    SameObjects(v, w);
  }

  // ---- Equal values have equal texts

  lemma {:induction false} SameItemsText(xs: seq<Json>, ys: seq<Json>)
    requires forall i :: 0 <= i < |xs| ==> WellFormed(xs[i])
    requires forall i :: 0 <= i < |ys| ==> WellFormed(ys[i])
    requires |xs| == |ys| && forall i :: 0 <= i < |xs| ==> Same(xs[i], ys[i])
    ensures ItemsText(xs) == ItemsText(ys)
    decreases xs
  {
    if xs != [] {
      SameText(xs[0], ys[0]);
      SameItemsText(xs[1..], ys[1..]);
    }
  }

  lemma {:induction false} SameMembersText(v: Json, w: Json, ks: seq<string>)
    requires v.Object? && w.Object? && WellFormed(v) && WellFormed(w)
    requires forall i :: 0 <= i < |ks| ==> ks[i] in v.keys && ks[i] in w.keys
    requires forall i :: 0 <= i < |ks| ==> Same(Member(v, ks[i]), Member(w, ks[i]))
    ensures MembersText(v, ks) == MembersText(w, ks)
    decreases v, 0, |ks|
  {
    if ks != [] {
      SameText(Member(v, ks[0]), Member(w, ks[0]));
      SameMembersText(v, w, ks[1..]);
    }
  }

  lemma {:induction false} SameText(v: Json, w: Json)
    requires WellFormed(v) && WellFormed(w) && Same(v, w)
    ensures Canon(v) == Canon(w)
    decreases v, 1
  {
    if v.Array? && w.Array? {
      SameItemsText(v.items, w.items);
    } else if v.Object? && w.Object? {
      SortKeysSorted(v.keys);
      SortKeysSorted(w.keys);
      AscendingUnique(SortedKeys(v), SortedKeys(w));
      SameMembersText(v, w, SortedKeys(v));
    }
  }

  /** Texts are equal exactly when the values are equal up to the order of members. */
  lemma TextDetermines(v: Json, w: Json)
    requires WellFormed(v) && WellFormed(w) && NoHole(v) && NoHole(w)
    ensures Canon(v) == Canon(w) <==> Same(v, w)
  {
    if Canon(v) == Canon(w) { Unique(v, w, "", ""); }
    if Same(v, w) { SameText(v, w); }
  }

  // ---- Limits

  datatype Error = TooDeep | ArrayTooBroad | ObjectTooBroad

  /** What a call gives back: an exception, JavaScript's `undefined`, or a string. */
  datatype Output = Thrown(error: Error) | NoText | Printed(text: string)

  function Stringify(v: Json, depth: nat): Output
    decreases v, 2
  {
    if depth > MAX_DEPTH then Thrown(TooDeep)
    else
      match v
      case Undefined => NoText
      case Null => Printed("null")
      case Bool(b) => Printed(if b then "true" else "false")
      case Number(token) => Printed(token)
      case Text(s) => Printed(Quote(s))
      case Array(items) =>
        if |items| > MAX_BREADTH then Thrown(ArrayTooBroad)
        else Prefixed("[", StringifyItems(items, depth + 1))
      case Object(keys, vals) =>
        if |keys| != |vals| then Printed("")
        else if |SortedKeys(v)| > MAX_BREADTH then Thrown(ObjectTooBroad)
        else Prefixed("{", StringifyMembers(v, SortedKeys(v), depth + 1))
  }

  function Prefixed(p: string, o: Output): Output {
    if o.Printed? then Printed(p + o.text) else o
  }

  /** An exception of the first part wins; otherwise its text goes in front. */
  function Joined(part: Output, missing: string, rest: Output): Output {
    if part.Thrown? then part
    else Prefixed(if part.NoText? then missing else part.text, rest)
  }

  function StringifyItems(items: seq<Json>, depth: nat): Output
    decreases items, 1
  {
    if items == [] then Printed("]")
    else if |items| == 1 then Joined(Stringify(items[0], depth), "", Printed("]"))
    else Joined(Stringify(items[0], depth), "", Prefixed(",", StringifyItems(items[1..], depth)))
  }

  function StringifyMembers(v: Json, ks: seq<string>, depth: nat): Output
    requires v.Object? && |v.keys| == |v.vals| && forall i :: 0 <= i < |ks| ==> ks[i] in v.keys
    decreases v, 1, ks
  {
    if ks == [] then Printed("}")
    else
      var part := Stringify(Member(v, ks[0]), depth);
      var rest := if |ks| == 1 then Printed("}") else Prefixed(",", StringifyMembers(v, ks[1..], depth));
      Prefixed(Quote(ks[0]) + ":", Joined(part, "undefined", rest))
  }

  predicate WithinLimits(v: Json, depth: nat) {
    && depth <= MAX_DEPTH
    && match v
       case Array(items) =>
         |items| <= MAX_BREADTH && forall i :: 0 <= i < |items| ==> WithinLimits(items[i], depth + 1)
       case Object(keys, vals) =>
         |keys| <= MAX_BREADTH && forall i :: 0 <= i < |vals| ==> WithinLimits(vals[i], depth + 1)
       case _ => true
  }

  lemma {:induction false} InsertLength(k: string, ks: seq<string>)
    ensures |Insert(k, ks)| == |ks| + 1
  {
    if ks != [] { InsertLength(k, ks[1..]); }
  }

  lemma {:induction false} SortKeysLength(ks: seq<string>)
    ensures |SortKeys(ks)| == |ks|
  {
    if ks != [] {
      SortKeysLength(ks[1..]);
      InsertLength(ks[0], SortKeys(ks[1..]));
    }
  }

  ghost function TextOutput(v: Json): Output { if v.Undefined? then NoText else Printed(Canon(v)) }

  lemma {:induction false} ItemsMeaning(items: seq<Json>, depth: nat)
    requires forall i :: 0 <= i < |items| ==> WellFormed(items[i])
    ensures (forall i :: 0 <= i < |items| ==> WithinLimits(items[i], depth)) ==>
      StringifyItems(items, depth) == Printed(ItemsText(items))
    ensures !(forall i :: 0 <= i < |items| ==> WithinLimits(items[i], depth)) ==> StringifyItems(items, depth).Thrown?
    decreases items, 1
  {
    if items != [] {
      StringifyMeaning(items[0], depth);
      ItemsMeaning(items[1..], depth);
      assert forall i :: 1 <= i < |items| ==> items[i] == items[1..][i - 1];
      assert forall i :: 0 <= i < |items[1..]| ==> items[1..][i] == items[i + 1];
      var t := ItemText(items[0]);
      assert |items| > 1 ==> t + ("," + ItemsText(items[1..])) == t + "," + ItemsText(items[1..]);
    }
  }

  /** The texts of one member and of what follows it, put together. */
  lemma JoinMember(k: string, m: Json, part: Output, rest: Output, after: string)
    requires part == TextOutput(m) && rest == Printed(after)
    ensures Prefixed(Quote(k) + ":", Joined(part, "undefined", rest)) == Printed(Quote(k) + ":" + Canon(m) + after)
  {
    assert Quote(k) + ":" + (Canon(m) + after) == Quote(k) + ":" + Canon(m) + after;
  }

  lemma {:induction false} MembersPrinted(v: Json, ks: seq<string>, depth: nat)
    requires WellFormed(v) && v.Object? && forall i :: 0 <= i < |ks| ==> ks[i] in v.keys
    requires forall i :: 0 <= i < |ks| ==> WithinLimits(Member(v, ks[i]), depth)
    ensures StringifyMembers(v, ks, depth) == Printed(MembersText(v, ks))
    decreases v, 1, |ks|
  {
    if ks != [] {
      var m := Member(v, ks[0]);
      StringifyMeaning(m, depth);
      if |ks| == 1 {
        JoinMember(ks[0], m, Stringify(m, depth), Printed("}"), "}");
      } else {
        MembersPrinted(v, ks[1..], depth);
        var after := "," + MembersText(v, ks[1..]);
        JoinMember(ks[0], m, Stringify(m, depth), Printed(after), after);
        assert MemberText(v, ks[0]) + after == MemberText(v, ks[0]) + "," + MembersText(v, ks[1..]);
      }
    }
  }

  lemma {:induction false} MembersThrow(v: Json, ks: seq<string>, depth: nat, bad: nat)
    requires WellFormed(v) && v.Object? && forall i :: 0 <= i < |ks| ==> ks[i] in v.keys
    requires bad < |ks| && !WithinLimits(Member(v, ks[bad]), depth)
    ensures StringifyMembers(v, ks, depth).Thrown?
    decreases v, 1, |ks|
  {
    StringifyMeaning(Member(v, ks[0]), depth);
    if bad > 0 { MembersThrow(v, ks[1..], depth, bad - 1); }
  }

  lemma {:induction false} ObjectMeaning(v: Json, depth: nat)
    requires WellFormed(v) && v.Object?
    ensures (forall i :: 0 <= i < |v.vals| ==> WithinLimits(v.vals[i], depth)) ==>
      StringifyMembers(v, SortedKeys(v), depth) == Printed(MembersText(v, SortedKeys(v)))
    ensures !(forall i :: 0 <= i < |v.vals| ==> WithinLimits(v.vals[i], depth)) ==>
      StringifyMembers(v, SortedKeys(v), depth).Thrown?
    decreases v, 2
  {
    var ks := SortedKeys(v);
    if i :| 0 <= i < |v.vals| && !WithinLimits(v.vals[i], depth) {
      SortKeysMembers(v.keys);
      assert v.keys[i] in ks;
      var j :| 0 <= j < |ks| && ks[j] == v.keys[i];
      assert IndexOf(v.keys, v.keys[i]) == i;
      MembersThrow(v, ks, depth, j);
    } else {
      MembersPrinted(v, ks, depth);
    }
  }

  /** Within the limits the call prints the canonical text; beyond them it throws. */
  lemma {:induction false} StringifyMeaning(v: Json, depth: nat)
    requires WellFormed(v)
    ensures WithinLimits(v, depth) ==> Stringify(v, depth) == TextOutput(v)
    ensures !WithinLimits(v, depth) ==> Stringify(v, depth).Thrown?
    decreases v, 3
  {
    if depth <= MAX_DEPTH {
      match v
      case Array(items) =>
        ItemsMeaning(items, depth + 1);
      case Object(keys, vals) =>
        SortKeysLength(keys);
        ObjectMeaning(v, depth + 1);
      case _ =>
    }
  }

  /** Somewhere in the value a limit is passed in the way that the error names. */
  ghost predicate Offends(v: Json, depth: nat, e: Error) {
    || (e == TooDeep && depth > 10)
    || (e == ArrayTooBroad && v.Array? && |v.items| > 100)
    || (e == ObjectTooBroad && v.Object? && |v.keys| > 100)
    || match v
       case Array(items) => exists i :: 0 <= i < |items| && Offends(items[i], depth + 1, e)
       case Object(keys, vals) => exists i :: 0 <= i < |vals| && Offends(vals[i], depth + 1, e)
       case _ => false
  }

  lemma {:induction false} ItemsErrors(items: seq<Json>, depth: nat)
    requires StringifyItems(items, depth).Thrown?
    ensures exists i :: 0 <= i < |items| && Offends(items[i], depth, StringifyItems(items, depth).error)
    decreases items, 1
  {
    if Stringify(items[0], depth).Thrown? {
      ErrorMeans(items[0], depth);
    } else {
      ItemsErrors(items[1..], depth);
      var i :| 0 <= i < |items[1..]| && Offends(items[1..][i], depth, StringifyItems(items[1..], depth).error);
      assert items[i + 1] == items[1..][i];
    }
  }

  lemma {:induction false} MembersErrors(v: Json, ks: seq<string>, depth: nat)
    requires v.Object? && |v.keys| == |v.vals| && forall i :: 0 <= i < |ks| ==> ks[i] in v.keys
    requires StringifyMembers(v, ks, depth).Thrown?
    ensures exists i :: 0 <= i < |v.vals| && Offends(v.vals[i], depth, StringifyMembers(v, ks, depth).error)
    decreases v, 1, |ks|
  {
    if Stringify(Member(v, ks[0]), depth).Thrown? {
      ErrorMeans(Member(v, ks[0]), depth);
      assert v.vals[IndexOf(v.keys, ks[0])] == Member(v, ks[0]);
    } else {
      MembersErrors(v, ks[1..], depth);
    }
  }

  /** The error that is thrown names a limit that the value passes. */
  lemma {:induction false} ErrorMeans(v: Json, depth: nat)
    requires Stringify(v, depth).Thrown?
    ensures Offends(v, depth, Stringify(v, depth).error)
    decreases v, 2
  {
    if depth <= MAX_DEPTH {
      match v
      case Array(items) => if |items| <= MAX_BREADTH { ItemsErrors(items, depth + 1); }
      case Object(keys, vals) =>
        SortKeysLength(keys);
        if |keys| <= MAX_BREADTH { MembersErrors(v, SortedKeys(v), depth + 1); }
    }
  }

  ghost predicate NoOffence(v: Json, depth: nat) { forall e :: !Offends(v, depth, e) }

  /** A value is within the limits exactly when it passes none of them anywhere. */
  lemma {:induction false} LimitsExactly(v: Json, depth: nat)
    requires WellFormed(v)
    ensures WithinLimits(v, depth) <==> NoOffence(v, depth)
    decreases v
  {
    var inner := if v.Array? then v.items else if v.Object? then v.vals else [];
    forall i | 0 <= i < |inner| ensures WithinLimits(inner[i], depth + 1) <==> NoOffence(inner[i], depth + 1) {
      LimitsExactly(inner[i], depth + 1);
    }
    if WithinLimits(v, depth) {
      forall e ensures !Offends(v, depth, e) {
        assert forall i :: 0 <= i < |inner| ==> NoOffence(inner[i], depth + 1);
      }
    } else if depth <= 10 && (v.Array? ==> |v.items| <= 100) && (v.Object? ==> |v.keys| <= 100) {
      var i :| 0 <= i < |inner| && !WithinLimits(inner[i], depth + 1);
      var e :| Offends(inner[i], depth + 1, e);
      assert Offends(v, depth, e);
    } else {
      assert Offends(v, depth, if depth > 10 then TooDeep else if v.Array? then ArrayTooBroad else ObjectTooBroad);
    }
  }

  /** Arrays n deep inside an array. */
  function Nested(n: nat): Json { if n == 0 then Array([]) else Array([Nested(n - 1)]) }

  /** Nesting is serialized exactly up to depth ten. */
  lemma {:induction false} NestingLimit(n: nat, depth: nat)
    ensures Stringify(Nested(n), depth).Printed? <==> depth + n <= 10
    ensures Stringify(Nested(n), depth).Printed? || Stringify(Nested(n), depth) == Thrown(TooDeep)
    decreases n
  {
    if n > 0 && depth <= 10 {
      NestingLimit(n - 1, depth + 1);
      var items := Nested(n).items;
      assert items == [Nested(n - 1)];
      assert StringifyItems(items, depth + 1) == Joined(Stringify(items[0], depth + 1), "", Printed("]"));
    }
  }

  lemma SameKeyCount(v: Json, w: Json)
    requires v.Object? && w.Object? && WellFormed(v) && WellFormed(w) && Same(v, w)
    ensures |v.keys| == |w.keys|
  {
    SortKeysSorted(v.keys);
    SortKeysSorted(w.keys);
    AscendingUnique(SortKeys(v.keys), SortKeys(w.keys));
  }

  /** Equal values are within the limits together. */
  lemma {:induction false} SameLimits(v: Json, w: Json, depth: nat)
    requires WellFormed(v) && WellFormed(w) && Same(v, w) && WithinLimits(v, depth)
    ensures WithinLimits(w, depth)
    decreases v
  {
    if v.Array? && w.Array? {
      forall i | 0 <= i < |w.items| ensures WithinLimits(w.items[i], depth + 1) {
        SameLimits(v.items[i], w.items[i], depth + 1);
      }
    } else if v.Object? && w.Object? {
      SameKeyCount(v, w);
      forall i | 0 <= i < |w.vals| ensures WithinLimits(w.vals[i], depth + 1) {
        var k := w.keys[i];
        assert IndexOf(w.keys, k) == i;
        assert k in v.keys && Member(w, k) == w.vals[i];
        SameLimits(Member(v, k), Member(w, k), depth + 1);
      }
    }
  }

  /**
   Two values within the limits, neither undefined and neither containing the array
   [undefined], are serialized to the same text exactly when they are equal up to the
   order of object members.
   */
  lemma CanonicalInjective(v: Json, w: Json)
    requires WellFormed(v) && WellFormed(w) && NoHole(v) && NoHole(w)
    requires !v.Undefined? && !w.Undefined?
    requires WithinLimits(v, 0) && WithinLimits(w, 0)
    ensures Stringify(v, 0).Printed? && Stringify(w, 0).Printed?
    ensures Stringify(v, 0) == Stringify(w, 0) <==> Same(v, w)
  {
    StringifyMeaning(v, 0);
    StringifyMeaning(w, 0);
    TextDetermines(v, w);
  }

  // ---- The array [undefined]

  /** The value with every array [undefined] emptied. */
  function Fill(v: Json): Json {
    match v
    case Array(items) =>
      if items == [Undefined] then Array([])
      else Array(seq(|items|, i requires 0 <= i < |items| => Fill(items[i])))
    case Object(keys, vals) => Object(keys, seq(|vals|, i requires 0 <= i < |vals| => Fill(vals[i])))
    case _ => v
  }

  lemma {:induction false} FillWellFormed(v: Json)
    requires WellFormed(v)
    ensures WellFormed(Fill(v)) && NoHole(Fill(v)) && (Fill(v).Undefined? <==> v.Undefined?)
  {
    match v
    case Array(items) =>
      forall i | 0 <= i < |items|
        ensures WellFormed(Fill(items[i])) && NoHole(Fill(items[i]))
        ensures Fill(items[i]).Undefined? <==> items[i].Undefined?
      {
        FillWellFormed(items[i]);
      }
      assert |items| == 1 ==> items == [items[0]];
    case Object(keys, vals) =>
      forall i | 0 <= i < |vals| ensures WellFormed(Fill(vals[i])) && NoHole(Fill(vals[i])) { FillWellFormed(vals[i]); }
    case _ =>
  }

  lemma {:induction false} FillLimits(v: Json, depth: nat)
    requires WithinLimits(v, depth)
    ensures WithinLimits(Fill(v), depth)
    decreases v
  {
    match v
    case Array(items) =>
      forall i | 0 <= i < |items| ensures WithinLimits(Fill(items[i]), depth + 1) { FillLimits(items[i], depth + 1); }
    case Object(keys, vals) =>
      forall i | 0 <= i < |vals| ensures WithinLimits(Fill(vals[i]), depth + 1) { FillLimits(vals[i], depth + 1); }
    case _ =>
  }

  lemma {:induction false} FillItems(xs: seq<Json>, ys: seq<Json>)
    requires |xs| == |ys| && forall i :: 0 <= i < |xs| ==> WellFormed(xs[i]) && ys[i] == Fill(xs[i])
    ensures ItemsText(ys) == ItemsText(xs)
    decreases xs, 1
  {
    if xs != [] {
      FillText(xs[0]);
      FillWellFormed(xs[0]);
      FillItems(xs[1..], ys[1..]);
    }
  }

  lemma {:induction false} FillMembers(v: Json, ks: seq<string>)
    requires v.Object? && WellFormed(v) && forall i :: 0 <= i < |ks| ==> ks[i] in v.keys
    ensures MembersText(Fill(v), ks) == MembersText(v, ks)
    decreases v, 1, |ks|
  {
    if ks != [] {
      assert Member(Fill(v), ks[0]) == Fill(Member(v, ks[0]));
      FillText(Member(v, ks[0]));
      FillMembers(v, ks[1..]);
    }
  }

  lemma {:induction false} FillText(v: Json)
    requires WellFormed(v)
    ensures Canon(Fill(v)) == Canon(v)
    decreases v, 2
  {
    match v
    case Array(items) =>
      if items == [Undefined] {
        assert ItemsText(items) == "" + "]";
      } else {
        FillItems(items, Fill(v).items);
      }
    case Object(keys, vals) => FillMembers(v, SortedKeys(v));
    case _ =>
  }

  lemma {:induction false} FillDiffers(v: Json)
    requires WellFormed(v) && !NoHole(v)
    ensures !Same(v, Fill(v))
  {
    match v
    case Array(items) =>
      if items != [Undefined] {
        var i :| 0 <= i < |items| && !NoHole(items[i]);
        FillDiffers(items[i]);
      }
    case Object(keys, vals) =>
      var i :| 0 <= i < |vals| && !NoHole(vals[i]);
      FillDiffers(vals[i]);
      assert IndexOf(keys, keys[i]) == i;
      assert keys[i] in keys && Member(v, keys[i]) == vals[i] && Member(Fill(v), keys[i]) == Fill(vals[i]);
    case _ =>
  }

  /**
   The condition is exact: a value that contains [undefined] shares its text with
   a different value, namely the same with that array empty.
   */
  lemma HoleCollides(v: Json)
    requires WellFormed(v) && WithinLimits(v, 0) && !NoHole(v)
    ensures WellFormed(Fill(v)) && WithinLimits(Fill(v), 0)
    ensures Stringify(Fill(v), 0) == Stringify(v, 0) && !Same(v, Fill(v))
  {
    FillWellFormed(v);
    FillLimits(v, 0);
    FillText(v);
    FillDiffers(v);
    StringifyMeaning(v, 0);
    StringifyMeaning(Fill(v), 0);
  }
}
