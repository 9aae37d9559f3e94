/**
 The ring in memory, updated in place: attaching the producer, its push, and the
 pull and commit of the consumer, each tied to the steps of the protocol.
 */
module RingMemory {
  import opened Options
  import opened Ring
  import opened RingProtocol

  function Splice(data: seq<Octet>, at: nat, bytes: seq<Octet>): (r: seq<Octet>)
    requires at + |bytes| <= |data|
    ensures |r| == |data|
  {
    data[..at] + bytes + data[at + |bytes|..]
  }

  lemma {:induction false} WrittenStraight(data: seq<Octet>, head: nat, m: Message, n: nat)
    requires n <= 4 + |m| && head + 4 + |m| <= |data|
    ensures Written(data, Straight, head, m, n) == Splice(data, head, Encode(m)[..n])
  {
    if n > 0 {
      WrittenStraight(data, head, m, n - 1);
    }
  }

  lemma {:induction false} WrittenMarker(data: seq<Octet>, head: nat, m: Message, n: nat)
    requires n <= 4 && head + 4 <= |data|
    ensures Written(data, Around, head, m, n) == Splice(data, head, SKIP_MARKER[..n])
  {
    if n > 0 {
      WrittenMarker(data, head, m, n - 1);
    }
  }

  lemma {:induction false} WrittenAround(data: seq<Octet>, head: nat, m: Message, n: nat)
    requires 4 <= n <= 8 + |m| && head + 4 <= |data| && 4 + |m| <= |data|
    ensures Written(data, Around, head, m, n) == Splice(Splice(data, head, SKIP_MARKER), 0, Encode(m)[..n - 4])
  {
    if n == 4 {
      WrittenMarker(data, head, m, 4);
      assert SKIP_MARKER[..4] == SKIP_MARKER;
    } else {
      WrittenAround(data, head, m, n - 1);
    }
  }

  method CopyInto(a: array<Octet>, at: nat, bytes: seq<Octet>)
    requires at + |bytes| <= a.Length
    modifies a
    ensures a[..] == Splice(old(a[..]), at, bytes)
  {
    forall i | 0 <= i < |bytes| { a[at + i] := bytes[i]; }
  }

  lemma SpliceTwice(data: seq<Octet>, at: nat, b: seq<Octet>, c: seq<Octet>)
    requires at + |b| + |c| <= |data|
    ensures Splice(Splice(data, at, b), at + |b|, c) == Splice(data, at, b + c)
  {}

  class SharedRing {
    const size: nat
    const data: array<Octet>
    var head: nat
    var tail: nat
    var declared: nat

    function View(): Segment
      reads this, data
    {
      Segment(size, head, tail, declared, data[..])
    }

    ghost predicate Valid()
      reads this, data
    {
      View().WellSized()
    }

    /** The protocol state with this memory and a producer at rest. */
    ghost function Shared(consumer: Consumer, accepted: seq<Message>, passed: seq<Message>): State
      requires size >= HEADER
      reads this, data
    {
      State(size - HEADER, data[..], head, tail, Resting, consumer, accepted, passed)
    }

    /** A zeroed mapping of the given length. */
    constructor (size: nat)
      ensures Valid() && this.size == size && head == 0 && tail == 0 && declared == 0
      ensures fresh(data)
    {
      this.size := size;
      data := new Octet[if size < HEADER then 0 else size - HEADER](_ => 0);
      head, tail, declared := 0, 0, 0;
    }

    /** Attaching the producer always publishes the capacity of the mapping, whatever was there. */
    method Attach() returns (capacity: Option<nat>)
      requires Valid()
      modifies this`declared
      ensures Valid()
      ensures capacity.None? <==> size < 32
      ensures capacity.None? ==> declared == old(declared)
      ensures capacity.Some? ==> declared == capacity.value
      ensures capacity.Some? && size - HEADER < U32 ==> ValidatedCapacity(size, declared) == Some(size - HEADER)
    {
      if size < 32 { return None; }
      declared := Wrap(size - HEADER);
      return Some(declared);
    }

    /**
     Push decides from one reading of head and tail, writes the message, and publishes the new head last:
     the whole push of the protocol, which is its start, every single write, and the publication.
     */
    method Push(capacity: nat, msg: Message) returns (ok: bool)
      requires Valid() && 32 <= size && capacity == size - HEADER && capacity <= 0x8000_0000
      requires head <= capacity - 4 && tail <= capacity - 4 && 4 + |msg| < U32
      modifies this`head, data
      ensures Valid()
      ensures ok <==> PushPlan(capacity, old(head), old(tail), |msg|) != Refuse
      ensures !ok ==> head == old(head) && data[..] == old(data[..])
      ensures ok ==> var plan := PushPlan(capacity, old(head), old(tail), |msg|);
        && head == NextHead(plan, old(head), msg) <= capacity - 4
        && (forall i :: 0 <= i < WriteCount(plan, msg) ==> WritePlace(plan, old(head), i) < capacity)
        && data[..] == Written(old(data[..]), plan, old(head), msg, WriteCount(plan, msg))
      ensures ok ==> forall c, accepted, passed ::
        && Fits(old(Shared(c, accepted, passed)), msg)
        && Shared(c, accepted + [msg], passed) == Pushed(old(Shared(c, accepted, passed)), msg)
    {
      var h, t := head, tail;
      PlanMeaning(capacity, h, t, |msg|);
      match PushPlan(capacity, h, t, |msg|) {
        case Refuse =>
          return false;
        case Around =>
          WriteAround(h, msg);
          head := 4 + |msg|;
        case Straight =>
          WriteStraight(h, msg);
          head := h + 4 + |msg|;
      }
      return true;
    }

    method WriteStraight(h: nat, msg: Message)
      requires h + 4 + |msg| <= data.Length
      modifies data
      ensures data[..] == Written(old(data[..]), Straight, h, msg, 4 + |msg|)
    {
      WriteMessage(h, msg);
      WrittenStraight(old(data[..]), h, msg, 4 + |msg|);
      assert Encode(msg)[..4 + |msg|] == Encode(msg);
    }

    /** The skip marker at the head, then the message at the start. */
    method WriteAround(h: nat, msg: Message)
      requires h + 4 <= data.Length && 4 + |msg| <= data.Length
      modifies data
      ensures data[..] == Written(old(data[..]), Around, h, msg, 8 + |msg|)
    {
      CopyInto(data, h, SKIP_MARKER);
      WriteMessage(0, msg);
      WrittenAround(old(data[..]), h, msg, 8 + |msg|);
      assert Encode(msg)[..4 + |msg|] == Encode(msg);
    }

    method WriteMessage(at: nat, msg: Message)
      requires at + 4 + |msg| <= data.Length
      modifies data
      ensures data[..] == Splice(old(data[..]), at, Encode(msg))
    {
      CopyInto(data, at, LeBytes(|msg|, 4));
      CopyInto(data, at + 4, msg);
      SpliceTwice(old(data[..]), at, LeBytes(|msg|, 4), msg);
    }

    /** The length stored at a place of the data. */
    method LengthAt(at: nat) returns (length: nat)
      requires at + 4 <= data.Length
      ensures length == ReadLength(data[..], at)
    {
      assert data[at..at + 4] == data[..][at..at + 4];
      length := LeValue(data[at..at + 4]);
    }

    /** Pull changes nothing: it returns null or a non-empty slice inside the mapping, the oldest message of a queue. */
    method PullSlice() returns (r: Slice)
      requires Valid()
      ensures r == Pull(View())
      ensures r.Slice? ==> 0 < r.length && HEADER + 4 <= r.offset && r.offset + r.length <= size
      ensures forall v :: Layout(declared, data[..], head, tail, v) && size == declared + HEADER && v.Queue() != [] ==>
        (r.Slice? <==> v.Queue()[0] != []) &&
        (r.Slice? ==> data[r.offset - HEADER..r.offset - HEADER + r.length] == v.Queue()[0])
    {
      r := FindSlice();
      forall v | Layout(declared, data[..], head, tail, v) && size == declared + HEADER && v.Queue() != []
        ensures (r.Slice? <==> v.Queue()[0] != []) &&
                (r.Slice? ==> data[r.offset - HEADER..r.offset - HEADER + r.length] == v.Queue()[0])
      {
        PullInLayout(View(), v);
      }
    }

    method FindSlice() returns (r: Slice)
      requires Valid()
      ensures r == Pull(View())
    {
      if size < 32 { return Nothing; }
      var validated := ValidatedCapacity(size, declared);
      if validated.None? || head == tail { return Nothing; }
      var capacity := validated.value;
      if tail + 4 >= U32 || tail + 4 > capacity { return Nothing; }
      var length := LengthAt(tail);
      var at := tail;
      if length == SKIP {
        at := 0;
        length := LengthAt(0);
        if length == 0 || length == SKIP { return Nothing; }
      }
      r := SliceAt(capacity, at, length);
    }

    /**
     Commit stores nothing but the tail. On any contents the tail stays, or lies within the declared capacity
     and the mapping; on a queue it moves behind the oldest message, and the rest is the queue without it.
     */
    method Commit()
      requires Valid()
      modifies this`tail
      ensures Valid() && tail == CommitTail(old(View()))
      ensures tail == old(tail) || (4 <= tail <= declared && tail + HEADER <= size)
      ensures head == old(tail) ==> tail == old(tail)
      ensures forall v ::
        Layout(declared, data[..], head, old(tail), v) && size == declared + HEADER && v.Queue() != [] ==>
        if v.first == [] && v.second[0] == [] then tail == old(tail)
        else Layout(declared, data[..], head, tail, Dropped(v)) &&
             tail == (if v.first != [] then old(tail) else 0) + 4 + |v.Queue()[0]|
    {
      ghost var before := View();
      MoveTail();
      forall v | Layout(declared, data[..], head, old(tail), v) && size == declared + HEADER && v.Queue() != []
        ensures if v.first == [] && v.second[0] == [] then tail == old(tail)
                else Layout(declared, data[..], head, tail, Dropped(v)) &&
                     tail == (if v.first != [] then old(tail) else 0) + 4 + |v.Queue()[0]|
      {
        CommitInLayout(before, v);
      }
    }

    method MoveTail()
      requires Valid()
      modifies this`tail
      ensures Valid() && tail == CommitTail(old(View()))
    {
      if size < 32 { return; }
      var validated := ValidatedCapacity(size, declared);
      if validated.None? || head == tail { return; }
      var capacity := validated.value;
      if tail + 4 >= U32 || tail + 4 > capacity { return; }
      var length := LengthAt(tail);
      if length == SKIP {
        var wrapped := LengthAt(0);
        if wrapped != 0 && wrapped != SKIP && wrapped + 4 < U32 && wrapped + 4 <= capacity { tail := wrapped + 4; }
      } else if tail + 4 + length < U32 && tail + 4 + length <= capacity {
        tail := tail + 4 + length;
      }
    }
  }

  // ---- In memory and in the protocol

  /** The protocol state of a ring at rest whose outstanding messages are those of the view. */
  ghost function AtRest(s: Segment, v: View): State {
    State(s.declared, s.data, s.head, s.tail, Resting, Idle, v.Queue(), [])
  }

  lemma PullInLayout(s: Segment, v: View)
    requires s.WellSized() && s.size == s.declared + HEADER
    requires Layout(s.declared, s.data, s.head, s.tail, v) && v.Queue() != []
    ensures Pull(s).Slice? <==> v.Queue()[0] != []
    ensures Pull(s).Slice? ==>
      s.data[Pull(s).offset - HEADER..Pull(s).offset - HEADER + Pull(s).length] == v.Queue()[0]
  {
    LayoutEmpty(s.declared, s.data, s.head, s.tail, v);
    PullMeaning(AtRest(s, v), v, s.head);
    if v.first != [] { OldestAhead(AtRest(s, v), v); } else { OldestAround(AtRest(s, v), v); }
  }

  lemma CommitInLayout(s: Segment, v: View)
    requires s.WellSized() && s.size == s.declared + HEADER
    requires Layout(s.declared, s.data, s.head, s.tail, v) && v.Queue() != []
    ensures v.first == [] && v.second[0] == [] ==> CommitTail(s) == s.tail
    ensures !(v.first == [] && v.second[0] == []) ==>
      && CommitTail(s) == (if v.first != [] then s.tail else 0) + 4 + |v.Queue()[0]|
      && Layout(s.declared, s.data, s.head, CommitTail(s), Dropped(v))
  {
    LayoutEmpty(s.declared, s.data, s.head, s.tail, v);
    CommitMeaning(AtRest(s, v), v, s.head);
    DropLayout(AtRest(s, v), v);
  }
}
