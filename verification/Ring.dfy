/**
 The single-producer, single-consumer ring of length-prefixed messages in shared
 memory: the decision and the writes of the producer, and the reads of the consumer.
 */
module Ring {
  import opened Options

  type Octet = x: int | 0 <= x < 256

  type Message = seq<Octet>

  const U32: nat := 0x1_0000_0000
  const SKIP: nat := 0xFFFF_FFFF
  const HEADER: nat := 16

  /** Unsigned 32-bit arithmetic as a release build does it. */
  function Wrap(x: int): nat { x % U32 }

  function CheckedAdd(a: nat, b: nat): Option<nat> {
    if a + b < U32 then Some(a + b) else None
  }

  // ---- Little-endian lengths

  function LeBytes(n: nat, k: nat): (s: seq<Octet>)
    ensures |s| == k
  {
    if k == 0 then [] else [n % 256] + LeBytes(n / 256, k - 1)
  }

  function LeValue(s: seq<Octet>): nat {
    if s == [] then 0 else s[0] + 256 * LeValue(s[1..])
  }

  function Pow256(k: nat): nat { if k == 0 then 1 else 256 * Pow256(k - 1) }

  lemma {:induction false} LeRoundTrip(n: nat, k: nat)
    requires n < Pow256(k)
    ensures LeValue(LeBytes(n, k)) == n
  {
    if k > 0 {
      LeRoundTrip(n / 256, k - 1);
      assert LeBytes(n, k)[1..] == LeBytes(n / 256, k - 1);
    }
  }

  /** The octets come lowest first: octet i counts for 256 to the power i. */
  lemma {:induction false} LeOctet(n: nat, k: nat, i: nat)
    requires i < k
    ensures Pow256(i) > 0 && LeBytes(n, k)[i] == n / Pow256(i) % 256
  {
    if i > 0 {
      LeOctet(n / 256, k - 1, i - 1);
      DivTwice(n, Pow256(i - 1));
    }
  }

  lemma DivTwice(n: nat, p: nat)
    requires p > 0
    ensures n / 256 / p == n / (256 * p)
  {
    var q, r := n / 256 / p, n / 256 % p;
    var rest := 256 * r + n % 256;
    assert n / 256 == q * p + r;
    assert n == 256 * (q * p + r) + n % 256;
    assert n == q * (256 * p) + rest;
    assert rest < 256 * p;
    Quotient(n, 256 * p, q, rest);
  }

  lemma Quotient(n: nat, d: nat, q: nat, r: nat)
    requires r < d && n == q * d + r
    ensures n / d == q
  {
    var e := n / d - q;
    assert n == d * (n / d) + n % d;
    assert e * d == r - n % d;
  }

  lemma {:induction false} LeBound(s: seq<Octet>)
    ensures LeValue(s) < Pow256(|s|)
  {
    if s != [] { LeBound(s[1..]); }
  }

  lemma FourBytes()
    ensures Pow256(4) == U32
  {}

  const SKIP_MARKER: seq<Octet> := [255, 255, 255, 255]

  lemma SkipValue()
    ensures LeValue(SKIP_MARKER) == SKIP
  {
    assert LeValue([255]) == 255;
    assert SKIP_MARKER[1..][1..] == [255, 255];
    assert LeValue([255, 255]) == 255 + 256 * 255 by { assert [255, 255][1..] == [255]; }
    assert LeValue([255, 255, 255]) == 255 + 256 * (255 + 256 * 255) by { assert [255, 255, 255][1..] == [255, 255]; }
    assert SKIP_MARKER[1..] == [255, 255, 255];
  }

  function ReadLength(data: seq<Octet>, at: nat): (n: nat)
    requires at + 4 <= |data|
    ensures n < U32
  {
    LeBound(data[at..at + 4]);
    FourBytes();
    LeValue(data[at..at + 4])
  }

  // ---- The encoding of messages

  function Encode(m: Message): seq<Octet> { LeBytes(|m|, 4) + m }

  function EncodeAll(q: seq<Message>): seq<Octet> {
    if q == [] then [] else Encode(q[0]) + EncodeAll(q[1..])
  }

  lemma {:induction false} EncodeAppend(q: seq<Message>, m: Message)
    ensures EncodeAll(q + [m]) == EncodeAll(q) + Encode(m)
  {
    if q == [] {
      assert q + [m] == [m] && [m][1..] == [];
      assert EncodeAll([m]) == Encode(m) + EncodeAll([]);
    } else {
      EncodeAppend(q[1..], m);
      assert (q + [m])[1..] == q[1..] + [m];
      Regrouped(Encode(q[0]), EncodeAll(q[1..]), Encode(m));
    }
  }

  lemma Regrouped<T>(a: seq<T>, b: seq<T>, c: seq<T>)
    ensures a + (b + c) == a + b + c
  {}

  lemma SliceOfSlice<T>(data: seq<T>, at: nat, end: nat, i: nat, j: nat)
    requires at <= end <= |data| && i <= j <= end - at
    ensures data[at..end][i..j] == data[at + i..at + j]
  {
    var outer, inner := data[at..end], data[at + i..at + j];
    forall k | 0 <= k < j - i ensures outer[i..j][k] == inner[k] {
      assert outer[i..j][k] == outer[i + k] == data[at + (i + k)];
    }
  }

  lemma SliceParts<T>(data: seq<T>, at: nat, end: nat, a: seq<T>, b: seq<T>, c: seq<T>)
    requires at <= end <= |data| && data[at..end] == a + b + c
    ensures at + |a| + |b| + |c| == end
    ensures data[at..at + |a|] == a
    ensures data[at + |a|..at + |a| + |b|] == b
    ensures data[at + |a| + |b|..end] == c
  {
    var s := a + b + c;
    assert |s| == |a| + |b| + |c| && s[0..|a|] == a;
    assert s[|a|..|a| + |b|] == b && s[|a| + |b|..|s|] == c;
    SliceOfSlice(data, at, end, 0, |a|);
    SliceOfSlice(data, at, end, |a|, |a| + |b|);
    SliceOfSlice(data, at, end, |a| + |b|, |s|);
  }

  /** The first message of an encoded region is read back in full. */
  lemma ReadFirst(data: seq<Octet>, at: nat, end: nat, q: seq<Message>)
    requires at <= end <= |data| && |data| < U32 && q != []
    requires data[at..end] == EncodeAll(q)
    ensures at + 4 + |q[0]| <= end
    ensures ReadLength(data, at) == |q[0]|
    ensures data[at + 4..at + 4 + |q[0]|] == q[0]
    ensures data[at + 4 + |q[0]|..end] == EncodeAll(q[1..])
  {
    var m := q[0];
    SliceParts(data, at, end, LeBytes(|m|, 4), m, EncodeAll(q[1..]));
    FourBytes();
    LeRoundTrip(|m|, 4);
  }

  // ---- The producer

  datatype Plan = Refuse | Straight | Around

  /** The decision of `push` for a message of the given length. */
  function PushPlan(capacity: nat, head: nat, tail: nat, length: nat): Plan {
    var total := Wrap(4 + Wrap(length));
    if capacity < 8 || total > capacity - 4 then Refuse
    else
      var used := if head >= tail then head - tail else Wrap(capacity - (tail - head));
      var free := Wrap(capacity - used - 1);
      if free < total then Refuse
      else if Wrap(head + total + 4) > capacity then (if tail > total then Around else Refuse)
      else Straight
  }

  lemma Unwrapped(x: nat)
    requires x < U32
    ensures Wrap(x) == x
  {}

  /** The decision of push, freed of modular arithmetic. */
  lemma PlanMeaning(capacity: nat, head: nat, tail: nat, n: nat)
    requires 16 <= capacity <= 0x8000_0000 && head <= capacity - 4 && tail <= capacity - 4 && 4 + n < U32
    ensures PushPlan(capacity, head, tail, n) == Straight <==>
      head + 8 + n <= capacity && (head < tail ==> head + 4 + n < tail)
    ensures PushPlan(capacity, head, tail, n) == Around <==>
      head + 8 + n > capacity && 8 + n <= capacity && tail <= head && 4 + n < tail
  {
    var used := if head >= tail then head - tail else capacity - (tail - head);
    Unwrapped(n);
    Unwrapped(4 + n);
    Unwrapped(used);
    Unwrapped(capacity - used - 1);
    if 8 + n <= capacity { Unwrapped(head + 8 + n); }
  }

  /** How many octets an accepted message makes the producer write. */
  function WriteCount(plan: Plan, m: Message): nat {
    match plan
    case Refuse => 0
    case Straight => 4 + |m|
    case Around => 8 + |m|
  }

  /** Where the i-th write goes: a skip marker at the head comes first when the message starts over at zero. */
  function WritePlace(plan: Plan, head: nat, i: nat): nat {
    if plan == Around && i >= 4 then i - 4 else head + i
  }

  function WriteOctet(plan: Plan, m: Message, i: nat): Octet
    requires i < WriteCount(plan, m)
  {
    if plan == Straight then Encode(m)[i] else if i < 4 then 255 else Encode(m)[i - 4]
  }

  /** The head that an accepted message publishes. */
  function NextHead(plan: Plan, head: nat, m: Message): nat {
    if plan == Straight then head + 4 + |m| else 4 + |m|
  }

  // ---- The consumer

  /** The mapping as the consumer finds it: its length, the three header words and the bytes after the header. */
  datatype Segment = Segment(size: nat, head: nat, tail: nat, declared: nat, data: seq<Octet>) {
    predicate WellSized() {
      && head < U32 && tail < U32 && declared < U32
      && |data| == if size < HEADER then 0 else size - HEADER
    }
  }

  function ValidatedCapacity(size: nat, declared: nat): (r: Option<nat>)
    ensures r.Some? ==> 0 < r.value && r.value + HEADER <= size && r.value < U32
  {
    if size < HEADER then None
    else
      var usable := size - HEADER;
      var max := if usable < U32 then usable else U32 - 1;
      if declared == 0 || declared > max then None else Some(declared)
  }

  datatype Slice = Nothing | Slice(offset: nat, length: nat)

  /**
   `shmem_ring_pull`: whatever the header and the data hold, the result is null or
   a non-empty slice inside the mapping.
   */
  function Pull(s: Segment): (r: Slice)
    requires s.WellSized()
    ensures r.Slice? ==> 0 < r.length && HEADER + 4 <= r.offset && r.offset + r.length <= s.size
    ensures r.Slice? ==> r.offset + r.length <= HEADER + s.declared
  {
    if s.size < 32 then Nothing
    else
      var validated := ValidatedCapacity(s.size, s.declared);
      if validated.None? || s.head == s.tail then Nothing
      else
        var capacity := validated.value;
        var lengthEnd := CheckedAdd(s.tail, 4);
        if lengthEnd.None? || lengthEnd.value > capacity then Nothing
        else
          var length := ReadLength(s.data, s.tail);
          if length == SKIP then
            var wrapped := ReadLength(s.data, 0);
            if wrapped == 0 || wrapped == SKIP then Nothing
            else SliceAt(capacity, 0, wrapped)
          else SliceAt(capacity, s.tail, length)
  }

  function SliceAt(capacity: nat, at: nat, length: nat): (r: Slice)
    requires 4 <= capacity
    ensures r.Slice? ==> r == Slice(HEADER + at + 4, length) && 0 < length && at + 4 + length <= capacity
    ensures r.Nothing? <==> length == 0 || at + 4 + length > capacity || at + 4 + length >= U32
  {
    var start := CheckedAdd(at, 4);
    var end := if start.None? then None else CheckedAdd(start.value, length);
    if length == 0 || length > capacity - 4 || end.None? || end.value > capacity then Nothing
    else Slice(HEADER + at + 4, length)
  }

  /** `shmem_ring_commit`: the tail it leaves is the old one or one within the validated capacity. */
  function CommitTail(s: Segment): (tail: nat)
    requires s.WellSized()
    ensures tail != s.tail ==> 4 <= tail <= s.declared && tail + HEADER <= s.size
    ensures tail != s.tail ==> s.tail + 4 <= |s.data|
    ensures s.head == s.tail ==> tail == s.tail
  {
    if s.size < 32 then s.tail
    else
      var validated := ValidatedCapacity(s.size, s.declared);
      if validated.None? || s.head == s.tail then s.tail
      else
        var capacity := validated.value;
        var lengthEnd := CheckedAdd(s.tail, 4);
        if lengthEnd.None? || lengthEnd.value > capacity then s.tail
        else
          var length := ReadLength(s.data, s.tail);
          if length == SKIP then
            var wrapped := ReadLength(s.data, 0);
            var next := CheckedAdd(wrapped, 4);
            if wrapped != 0 && wrapped != SKIP && next.Some? && next.value <= capacity then next.value else s.tail
          else
            var next := CheckedAdd(lengthEnd.value, length);
            if next.Some? && next.value <= capacity then next.value else s.tail
  }

  /** Where the next message is, and its stored length; behind a skip marker it is at the start. */
  function NextPlace(s: Segment): nat
    requires s.tail + 4 <= |s.data|
  {
    if ReadLength(s.data, s.tail) == SKIP then 0 else s.tail
  }

  /** The header lets the consumer read a length at the tail. */
  predicate Readable(s: Segment) {
    32 <= s.size && 0 < s.declared <= s.size - HEADER && s.head != s.tail && s.tail + 4 <= s.declared
  }

  /** On any contents: exactly when a pull gives a slice, and which one. */
  lemma PullAnything(s: Segment)
    requires s.WellSized()
    ensures Pull(s).Slice? <==>
      Readable(s) && var at := NextPlace(s); var length := ReadLength(s.data, at);
                     at + 4 <= |s.data| && 0 < length && length != SKIP && at + 4 + length <= s.declared
    ensures Pull(s).Slice? ==>
      Pull(s) == Slice(HEADER + NextPlace(s) + 4, ReadLength(s.data, NextPlace(s)))
  {}

  /** And exactly when a commit moves the tail, and where to: behind the next message, empty or not. */
  lemma CommitAnything(s: Segment)
    requires s.WellSized()
    ensures CommitTail(s) != s.tail <==>
      Readable(s) && var at := NextPlace(s); var length := ReadLength(s.data, at);
                     at + 4 <= |s.data| && length != SKIP && at + 4 + length <= s.declared &&
                     (at != s.tail ==> 0 < length && 4 + length != s.tail)
    ensures CommitTail(s) != s.tail ==>
      CommitTail(s) == NextPlace(s) + 4 + ReadLength(s.data, NextPlace(s))
  {}
}
