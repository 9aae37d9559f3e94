/**
 A parser of JSON texts (RFC 8259), written from the grammar and not from the
 serializer, and the proof that it reads every canonical text back.
 */
module JsonParser {
  import opened Options
  import opened CanonicalJson

  // ---- String tokens (section 7 of RFC 8259)

  function HexValue(c: char): (n: nat)
    ensures n <= 16
  {
    if '0' <= c <= '9' then c as nat - '0' as nat
    else if 'a' <= c <= 'f' then 10 + (c as nat - 'a' as nat)
    else if 'A' <= c <= 'F' then 10 + (c as nat - 'A' as nat)
    else 16
  }

  /** The character that four hexadecimal digits stand for, if it is one. */
  function FromHex(d: string): Option<char>
    requires |d| == 4
  {
    var (x, y, z, w) := (HexValue(d[0]), HexValue(d[1]), HexValue(d[2]), HexValue(d[3]));
    var code := 4096 * x + 256 * y + 16 * z + w;
    if x == 16 || y == 16 || z == 16 || w == 16 || 0xD800 <= code < 0xE000 then None else Some(code as char)
  }

  /** One character of a string, escaped or not. */
  function ParseChar(t: string): (r: Option<(char, string)>)
    ensures r.Some? ==> |r.value.1| < |t|
  {
    if t == "" || t[0] == '"' || t[0] < ' ' then None
    else if t[0] != '\\' then Some((t[0], t[1..]))
    else if |t| < 2 then None
    else
      match t[1]
      case '"' => Some(('"', t[2..]))
      case '\\' => Some(('\\', t[2..]))
      case '/' => Some(('/', t[2..]))
      case 'b' => Some(('\U{8}', t[2..]))
      case 'f' => Some(('\U{c}', t[2..]))
      case 'n' => Some(('\n', t[2..]))
      case 'r' => Some(('\r', t[2..]))
      case 't' => Some(('\t', t[2..]))
      case 'u' => if |t| >= 6 && FromHex(t[2..6]).Some? then Some((FromHex(t[2..6]).value, t[6..])) else None
      case _ => None
  }

  /** The characters up to the closing quote. */
  function ParseString(t: string): (r: Option<(string, string)>)
    ensures r.Some? ==> |r.value.1| < |t|
    decreases |t|
  {
    if t != "" && t[0] == '"' then Some(("", t[1..]))
    else
      var c := ParseChar(t);
      if c.None? then None
      else
        var rest := ParseString(c.value.1);
        if rest.None? then None else Some(([c.value.0] + rest.value.0, rest.value.1))
  }

  // ---- Values (section 3 of RFC 8259)

  /** The longest run of number characters. */
  function ParseNumber(t: string): (r: (string, string))
    ensures |r.0| + |r.1| == |t|
    ensures t != "" && IsNumberChar(t[0]) ==> |r.1| < |t|
  {
    if t == "" || !IsNumberChar(t[0]) then ("", t)
    else
      var rest := ParseNumber(t[1..]);
      ([t[0]] + rest.0, rest.1)
  }

  function ParseValue(t: string): (r: Option<(Json, string)>)
    ensures r.Some? ==> |r.value.1| < |t|
    decreases |t|, 0
  {
    if t == "" then None
    else if t[0] == '"' then
      var s := ParseString(t[1..]);
      if s.None? then None else Some((Text(s.value.0), s.value.1))
    else if t[0] == '[' then ParseArray(t[1..])
    else if t[0] == '{' then ParseObject(t[1..])
    else if t[0] == '-' || '0' <= t[0] <= '9' then
      var n := ParseNumber(t);
      Some((Number(n.0), n.1))
    else ParseWord(t)
  }

  function ParseWord(t: string): (r: Option<(Json, string)>)
    ensures r.Some? ==> |r.value.1| < |t|
  {
    if "null" <= t then Some((Null, t[4..]))
    else if "true" <= t then Some((Bool(true), t[4..]))
    else if "false" <= t then Some((Bool(false), t[5..]))
    else None
  }

  /** What follows an opening bracket. */
  function ParseArray(t: string): (r: Option<(Json, string)>)
    ensures r.Some? ==> |r.value.1| < |t|
    decreases |t|, 3
  {
    if t != "" && t[0] == ']' then Some((Array([]), t[1..]))
    else
      var xs := ParseItems(t);
      if xs.None? then None else Some((Array(xs.value.0), xs.value.1))
  }

  /** What follows an opening brace. */
  function ParseObject(t: string): (r: Option<(Json, string)>)
    ensures r.Some? ==> |r.value.1| < |t|
    decreases |t|, 3
  {
    if t != "" && t[0] == '}' then Some((Object([], []), t[1..]))
    else
      var ms := ParseMembers(t);
      if ms.None? then None else Some((Object(ms.value.0, ms.value.1), ms.value.2))
  }

  /** Items separated by commas, up to the closing bracket. */
  function ParseItems(t: string): (r: Option<(seq<Json>, string)>)
    ensures r.Some? ==> |r.value.1| < |t|
    decreases |t|, 1
  {
    var v := ParseValue(t);
    if v.None? || v.value.1 == "" then None
    else if v.value.1[0] == ']' then Some(([v.value.0], v.value.1[1..]))
    else if v.value.1[0] != ',' then None
    else
      var rest := ParseItems(v.value.1[1..]);
      if rest.None? then None else Some(([v.value.0] + rest.value.0, rest.value.1))
  }

  /** A name, a colon and a value. */
  function ParseMember(t: string): (r: Option<(string, Json, string)>)
    ensures r.Some? ==> |r.value.2| < |t|
    decreases |t|, 1
  {
    if t == "" || t[0] != '"' then None
    else
      var k := ParseString(t[1..]);
      if k.None? || k.value.1 == "" || k.value.1[0] != ':' then None
      else
        var v := ParseValue(k.value.1[1..]);
        if v.None? then None else Some((k.value.0, v.value.0, v.value.1))
  }

  /** Members separated by commas, up to the closing brace. */
  function ParseMembers(t: string): (r: Option<(seq<string>, seq<Json>, string)>)
    ensures r.Some? ==> |r.value.2| < |t|
    decreases |t|, 2
  {
    var m := ParseMember(t);
    if m.None? || m.value.2 == "" then None
    else if m.value.2[0] == '}' then Some(([m.value.0], [m.value.1], m.value.2[1..]))
    else if m.value.2[0] != ',' then None
    else
      var rest := ParseMembers(m.value.2[1..]);
      if rest.None? then None else Some(([m.value.0] + rest.value.0, [m.value.1] + rest.value.1, rest.value.2))
  }

  // ---- Tokens are read back

  lemma HexRead(n: nat)
    requires n < 16
    ensures HexValue(HexDigit(n)) == n
  {}

  lemma EscapeRead(c: char, s: string)
    ensures ParseChar(EscapeChar(c) + s) == Some((c, s))
    ensures (EscapeChar(c) + s)[0] != '"'
  {
    var t := EscapeChar(c) + s;
    EscapeShape(c);
    if Plain(c) {
      assert t[1..] == s;
    } else if Named(c) {
      assert t[0] == '\\' && t[1] == NameOf(c) && t[2..] == s;
    } else {
      ControlRead(c, s);
    }
  }

  lemma ControlRead(c: char, s: string)
    requires !Plain(c) && !Named(c)
    ensures ParseChar(EscapeChar(c) + s) == Some((c, s)) && (EscapeChar(c) + s)[0] == '\\'
  {
    var t, hi, lo := EscapeChar(c) + s, c as nat / 16, c as nat % 16;
    EscapeShape(c);
    HexRead(hi);
    HexRead(lo);
    assert t[0] == '\\' && t[1] == 'u' && t[6..] == s;
    assert t[2..6] == ['0', '0', HexDigit(hi), HexDigit(lo)];
    assert FromHex(t[2..6]) == Some(c);
  }

  lemma {:induction false} StringRead(a: string, s: string)
    ensures ParseString(Spell(EscapeChar, a) + ("\"" + s)) == Some((a, s))
  {
    var end := "\"" + s;
    if a == "" {
      assert Spell(EscapeChar, a) + end == end && end[1..] == s;
    } else {
      SpellStep(EscapeChar, a, end);
      EscapeRead(a[0], Spell(EscapeChar, a[1..]) + end);
      StringRead(a[1..], s);
      assert a == [a[0]] + a[1..];
    }
  }

  lemma QuoteRead(a: string, s: string)
    ensures (Quote(a) + s)[0] == '"' && ParseString((Quote(a) + s)[1..]) == Some((a, s))
  {
    QuoteParts(a, s);
    assert (Quote(a) + s)[1..] == Spell(EscapeChar, a) + ("\"" + s);
    StringRead(a, s);
  }

  lemma {:induction false} NumberRead(a: string, s: string)
    requires Follow(s) && forall i :: 0 <= i < |a| ==> IsNumberChar(a[i])
    ensures ParseNumber(a + s) == (a, s)
  {
    if a == "" {
      assert a + s == s;
    } else {
      NumberRead(a[1..], s);
      assert (a + s)[1..] == a[1..] + s && a == [a[0]] + a[1..];
    }
  }

  // ---- Values are read back

  /** Nothing in the value is undefined. */
  ghost predicate Whole(v: Json) {
    match v
    case Undefined => false
    case Array(items) => forall i :: 0 <= i < |items| ==> Whole(items[i])
    case Object(keys, vals) => forall i :: 0 <= i < |vals| ==> Whole(vals[i])
    case _ => true
  }

  /** The value with the members of every object in the order of their keys. */
  ghost function Sorted(v: Json): Json
    requires WellFormed(v)
    decreases v, 1
  {
    match v
    case Array(items) => Array(SortedItems(items))
    case Object(keys, vals) => Object(SortedKeys(v), SortedVals(v, SortedKeys(v)))
    case _ => v
  }

  ghost function SortedItems(items: seq<Json>): (xs: seq<Json>)
    requires forall i :: 0 <= i < |items| ==> WellFormed(items[i])
    ensures |xs| == |items|
    decreases items
  {
    if items == [] then [] else [Sorted(items[0])] + SortedItems(items[1..])
  }

  lemma {:induction false} SortedItemsAt(items: seq<Json>, i: nat)
    requires (forall j :: 0 <= j < |items| ==> WellFormed(items[j])) && i < |items|
    ensures SortedItems(items)[i] == Sorted(items[i])
    decreases |items|
  {
    if i > 0 { SortedItemsAt(items[1..], i - 1); }
  }

  ghost function SortedVals(v: Json, ks: seq<string>): (vs: seq<Json>)
    requires v.Object? && WellFormed(v) && forall i :: 0 <= i < |ks| ==> ks[i] in v.keys
    ensures |vs| == |ks|
    decreases v, 0, |ks|
  {
    if ks == [] then [] else [Sorted(Member(v, ks[0]))] + SortedVals(v, ks[1..])
  }

  lemma {:induction false} SortedValsAt(v: Json, ks: seq<string>, i: nat)
    requires v.Object? && WellFormed(v) && (forall j :: 0 <= j < |ks| ==> ks[j] in v.keys) && i < |ks|
    ensures SortedVals(v, ks)[i] == Sorted(Member(v, ks[i]))
    decreases |ks|
  {
    if i > 0 { SortedValsAt(v, ks[1..], i - 1); }
  }

  lemma LastItem(t: string, x: Json, s: string)
    requires ParseValue(t) == Some((x, "]" + s))
    ensures ParseItems(t) == Some(([x], s))
  {
    assert ("]" + s)[1..] == s;
  }

  lemma MoreItems(t: string, x: Json, u: string, xs: seq<Json>, s: string)
    requires ParseValue(t) == Some((x, "," + u)) && ParseItems(u) == Some((xs, s))
    ensures ParseItems(t) == Some(([x] + xs, s))
  {
    assert ("," + u)[1..] == u;
  }

  lemma {:induction false} ItemsRead(items: seq<Json>, s: string)
    requires items != [] && forall i :: 0 <= i < |items| ==> WellFormed(items[i]) && Whole(items[i])
    ensures ParseItems(ItemsText(items) + s) == Some((SortedItems(items), s))
    decreases items, 1
  {
    var t, x := ItemsText(items) + s, Sorted(items[0]);
    ItemsStep(items, s);
    ValueRead(items[0], AfterItem(items, s));
    if |items| == 1 {
      LastItem(t, x, s);
      assert SortedItems(items) == [x];
    } else {
      ItemsRead(items[1..], s);
      MoreItems(t, x, ItemsText(items[1..]) + s, SortedItems(items[1..]), s);
    }
  }

  lemma {:induction false} MemberRead(v: Json, ks: seq<string>, s: string)
    requires v.Object? && WellFormed(v) && Whole(v) && ks != [] && forall i :: 0 <= i < |ks| ==> ks[i] in v.keys
    ensures ParseMember(MembersText(v, ks) + s) == Some((ks[0], Sorted(Member(v, ks[0])), AfterMember(v, ks, s)))
    decreases v, 1
  {
    var m, after := Member(v, ks[0]), AfterMember(v, ks, s);
    var rest := ":" + (Canon(m) + after);
    MembersStep(v, ks, s);
    QuoteRead(ks[0], rest);
    assert rest[1..] == Canon(m) + after;
    ValueRead(m, after);
  }

  lemma LastMember(t: string, k: string, m: Json, s: string)
    requires ParseMember(t) == Some((k, m, "}" + s))
    ensures ParseMembers(t) == Some(([k], [m], s))
  {
    assert ("}" + s)[1..] == s;
  }

  lemma MoreMembers(t: string, k: string, m: Json, u: string, ks: seq<string>, ms: seq<Json>, s: string)
    requires ParseMember(t) == Some((k, m, "," + u)) && ParseMembers(u) == Some((ks, ms, s))
    ensures ParseMembers(t) == Some(([k] + ks, [m] + ms, s))
  {
    assert ("," + u)[1..] == u;
  }

  lemma {:induction false} MembersRead(v: Json, ks: seq<string>, s: string)
    requires v.Object? && WellFormed(v) && Whole(v) && ks != [] && forall i :: 0 <= i < |ks| ==> ks[i] in v.keys
    ensures ParseMembers(MembersText(v, ks) + s) == Some((ks, SortedVals(v, ks), s))
    decreases v, 2, |ks|
  {
    MemberRead(v, ks, s);
    var t, m := MembersText(v, ks) + s, Sorted(Member(v, ks[0]));
    assert ks == [ks[0]] + ks[1..];
    if |ks| == 1 {
      LastMember(t, ks[0], m, s);
      assert ks == [ks[0]] && SortedVals(v, ks) == [m];
    } else {
      MembersRead(v, ks[1..], s);
      MoreMembers(t, ks[0], m, MembersText(v, ks[1..]) + s, ks[1..], SortedVals(v, ks[1..]), s);
    }
  }

  /** The text of a value in front of what may follow it is read as that value. */
  lemma {:induction false} ValueRead(v: Json, s: string)
    requires WellFormed(v) && Whole(v) && Follow(s)
    ensures ParseValue(Canon(v) + s) == Some((Sorted(v), s))
    decreases v, 4
  {
    match v
    case Text(a) => QuoteRead(a, s);
    case Number(token) => NumberValueRead(token, s);
    case Array(items) => ArrayRead(v, s);
    case Object(keys, vals) => ObjectRead(v, s);
    case _ => WordRead(v, s);
  }

  lemma NumberValueRead(token: string, s: string)
    requires IsNumberToken(token) && Follow(s)
    ensures ParseValue(token + s) == Some((Number(token), s))
  {
    NumberRead(token, s);
    assert (token + s)[0] == token[0];
  }

  /** The opening bracket or brace decides. */
  lemma Opened(t: string)
    ensures ParseValue("[" + t) == ParseArray(t) && ParseValue("{" + t) == ParseObject(t)
  {
    assert ("[" + t)[1..] == t && ("{" + t)[1..] == t;
  }

  lemma WordRead(v: Json, s: string)
    requires v.Null? || v.Bool?
    ensures ParseValue(Canon(v) + s) == Some((v, s))
  {
    var t, n := Canon(v) + s, |Canon(v)|;
    assert t[..n] == Canon(v) && t[n..] == s && t[0] == Canon(v)[0];
  }

  lemma {:induction false} ArrayRead(v: Json, s: string)
    requires v.Array? && WellFormed(v) && Whole(v)
    ensures ParseValue(Canon(v) + s) == Some((Sorted(v), s))
    decreases v, 3
  {
    var t := ItemsText(v.items) + s;
    assert Canon(v) + s == "[" + t;
    Opened(t);
    if v.items == [] {
      assert t == "]" + s && t[1..] == s && Sorted(v).items == [];
    } else {
      NotClosed(v.items, s);
      ItemsRead(v.items, s);
    }
  }

  lemma {:induction false} ObjectRead(v: Json, s: string)
    requires v.Object? && WellFormed(v) && Whole(v)
    ensures ParseValue(Canon(v) + s) == Some((Sorted(v), s))
    decreases v, 3
  {
    var ks := SortedKeys(v);
    var t := MembersText(v, ks) + s;
    assert Canon(v) + s == "{" + t;
    Opened(t);
    MembersOpen(v, ks, s);
    if ks == [] {
      assert t[1..] == s && SortedVals(v, ks) == [];
    } else {
      MembersRead(v, ks, s);
    }
  }

  // ---- The serializer writes JSON

  lemma SortedMember(v: Json, k: string)
    requires v.Object? && WellFormed(v) && k in v.keys
    ensures k in Sorted(v).keys && Member(Sorted(v), k) == Sorted(Member(v, k))
  {
    SortKeysMembers(v.keys);
    assert k in SortedKeys(v);
    SortedValsAt(v, SortedKeys(v), IndexOf(SortedKeys(v), k));
  }

  lemma {:induction false} SortedSame(v: Json)
    requires WellFormed(v)
    ensures Same(v, Sorted(v))
    decreases v
  {
    match v
    case Array(items) =>
      forall i | 0 <= i < |items| ensures Same(items[i], Sorted(v).items[i]) {
        SortedItemsAt(items, i);
        SortedSame(items[i]);
      }
    case Object(keys, vals) =>
      SortKeysMembers(keys);
      forall k | k in keys && k in Sorted(v).keys ensures Same(Member(v, k), Member(Sorted(v), k)) {
        SortedMember(v, k);
        SortedSame(Member(v, k));
      }
    case _ =>
  }

  /** The keys of every object in the value ascend. */
  ghost predicate KeysInOrder(v: Json) {
    match v
    case Array(items) => forall i :: 0 <= i < |items| ==> KeysInOrder(items[i])
    case Object(keys, vals) => Ascending(keys) && forall i :: 0 <= i < |vals| ==> KeysInOrder(vals[i])
    case _ => true
  }

  lemma {:induction false} SortedInOrder(v: Json)
    requires WellFormed(v)
    ensures KeysInOrder(Sorted(v))
    decreases v
  {
    match v
    case Array(items) =>
      forall i | 0 <= i < |items| ensures KeysInOrder(SortedItems(items)[i]) {
        SortedItemsAt(items, i);
        SortedInOrder(items[i]);
      }
    case Object(keys, vals) =>
      SortKeysSorted(keys);
      var ks := SortedKeys(v);
      forall i | 0 <= i < |ks| ensures KeysInOrder(SortedVals(v, ks)[i]) {
        SortedValsAt(v, ks, i);
        SortedInOrder(Member(v, ks[i]));
      }
    case _ =>
  }

  /**
   Within the limits and with nothing undefined in it, a value is serialized to a JSON text that is read back,
   to its end, as the same value up to the order of members, with the keys of every object ascending.
   */
  lemma CanonicalRoundTrip(v: Json) returns (w: Json)
    requires WellFormed(v) && Whole(v) && WithinLimits(v, 0)
    ensures Stringify(v, 0).Printed? && ParseValue(Stringify(v, 0).text) == Some((w, ""))
    ensures Same(v, w) && KeysInOrder(w)
  {
    w := Sorted(v);
    StringifyMeaning(v, 0);
    assert Canon(v) + "" == Canon(v);
    ValueRead(v, "");
    SortedSame(v);
    SortedInOrder(v);
  }
}
