/**
 The ring as a protocol between two processes: every interleaving of the octet
 writes and the publication of the producer with the loads and stores of the
 consumer refines a first-in, first-out queue of messages.
 */
module RingProtocol {
  import opened Ring

  datatype Producer = Resting | Writing(message: Message, plan: Plan, done: nat)

  datatype Consumer =
    | Idle
    | Pulling(head: nat)
    | Holding(slice: Slice)
    | Committing(head: nat)

  /** `accepted` and `passed` are history: the messages push returned true for, and those the tail moved past. */
  datatype State = State(
    capacity: nat,
    data: seq<Octet>,
    head: nat,
    tail: nat,
    producer: Producer,
    consumer: Consumer,
    accepted: seq<Message>,
    passed: seq<Message>)
  {
    /** The mapping that the consumer sees when it has loaded the given head. */
    function Seen(loaded: nat): Segment {
      Segment(capacity + HEADER, loaded, tail, capacity, data)
    }
  }

  /** The bytes of the message that a commit moves the tail past. */
  function PassedMessage(s: State): Message
    requires s.tail + 4 <= |s.data|
  {
    var at := if ReadLength(s.data, s.tail) == SKIP then 0 else s.tail;
    var end := at + 4 + ReadLength(s.data, at);
    if end <= |s.data| then s.data[at + 4..end] else []
  }

  datatype Step =
    | PushStart(message: Message)
    | PushWrite
    | PushPublish
    | PullLoad
    | PullRead
    | CommitLoad
    | CommitStore

  /** A mapping of at least 32 bytes, freshly zeroed, with room for u32 sums. */
  ghost predicate Init(s: State) {
    && 16 <= s.capacity <= 0x8000_0000 && |s.data| == s.capacity
    && s.head == 0 && s.tail == 0
    && s.producer == Resting && s.consumer == Idle
    && s.accepted == [] && s.passed == []
  }

  ghost predicate Next(s: State, step: Step, s': State) {
    match step
    case PushStart(m) =>
      && s.producer.Resting? && 4 + |m| < U32
      && var plan := PushPlan(s.capacity, s.head, s.tail, |m|);
      s' == if plan == Refuse then s else s.(producer := Writing(m, plan, 0))
    case PushWrite =>
      && s.producer.Writing?
      && var Writing(m, plan, i) := s.producer;
      && i < WriteCount(plan, m)
      && WritePlace(plan, s.head, i) < |s.data|
      && s' == s.(producer := Writing(m, plan, i + 1),
                  data := s.data[WritePlace(plan, s.head, i) := WriteOctet(plan, m, i)])
    case PushPublish =>
      && s.producer.Writing?
      && var Writing(m, plan, i) := s.producer;
      && i == WriteCount(plan, m)
      && s' == s.(producer := Resting, head := NextHead(plan, s.head, m), accepted := s.accepted + [m])
    case PullLoad =>
      && (s.consumer.Idle? || s.consumer.Holding?)
      && s' == s.(consumer := Pulling(s.head))
    case PullRead =>
      && s.consumer.Pulling? && s.Seen(s.consumer.head).WellSized()
      && var r := Pull(s.Seen(s.consumer.head));
      s' == s.(consumer := if r.Nothing? then Idle else Holding(r))
    case CommitLoad =>
      && (s.consumer.Idle? || s.consumer.Holding?)
      && s' == s.(consumer := Committing(s.head))
    case CommitStore =>
      && s.consumer.Committing? && s.Seen(s.consumer.head).WellSized()
      && var tail := CommitTail(s.Seen(s.consumer.head));
      s' == if tail == s.tail then s.(consumer := Idle)
            else s.(consumer := Idle, tail := tail, passed := s.passed + [PassedMessage(s)])
  }

  // ---- What the memory holds

  /** The outstanding messages: those up to the skip marker, and those after the wrap. */
  datatype View = View(first: seq<Message>, second: seq<Message>, mark: nat) {
    function Queue(): seq<Message> { first + second }
  }

  ghost predicate Layout(capacity: nat, data: seq<Octet>, head: nat, tail: nat, v: View) {
    && 16 <= capacity <= 0x8000_0000 && |data| == capacity
    && head <= capacity - 4 && tail <= capacity - 4
    && if tail <= head then
         v.second == [] && data[tail..head] == EncodeAll(v.first)
       else
         && tail <= v.mark <= capacity - 4
         && data[tail..v.mark] == EncodeAll(v.first)
         && data[v.mark..v.mark + 4] == SKIP_MARKER
         && v.second != []
         && data[..head] == EncodeAll(v.second)
  }

  /** The octets that the producer has written so far, and why they touch nothing outstanding. */
  ghost predicate ProducerOk(s: State)
    requires |s.data| == s.capacity && s.head <= s.capacity - 4
  {
    match s.producer
    case Resting => true
    case Writing(m, Refuse, i) => false
    case Writing(m, Straight, i) =>
      && s.head + 8 + |m| <= s.capacity && i <= 4 + |m|
      && (s.head < s.tail ==> s.head + 4 + |m| < s.tail)
      && s.data[s.head..s.head + i] == Encode(m)[..i]
    case Writing(m, Around, i) =>
      && s.tail <= s.head && 4 + |m| < s.tail && i <= 8 + |m|
      && (i <= 4 ==> s.data[s.head..s.head + i] == SKIP_MARKER[..i])
      && (i >= 4 ==> s.data[s.head..s.head + 4] == SKIP_MARKER && s.data[..i - 4] == Encode(m)[..i - 4])
  }

  ghost predicate ConsumerOk(s: State, v: View) {
    match s.consumer
    case Idle => true
    case Pulling(h) => h < U32 && (h != s.tail ==> v.Queue() != [])
    case Committing(h) => h < U32 && (h != s.tail ==> v.Queue() != [])
    case Holding(r) =>
      && v.Queue() != [] && v.Queue()[0] != []
      && r == Slice(HEADER + 4 + (if v.first != [] then s.tail else 0), |v.Queue()[0]|)
  }

  ghost predicate Inv(s: State, v: View) {
    && Layout(s.capacity, s.data, s.head, s.tail, v)
    && s.accepted == s.passed + v.Queue()
    && ProducerOk(s)
    && ConsumerOk(s, v)
  }

  lemma LayoutEmpty(capacity: nat, data: seq<Octet>, head: nat, tail: nat, v: View)
    requires Layout(capacity, data, head, tail, v)
    ensures v.Queue() == [] <==> head == tail
  {
  }

  // ---- The producer

  /** A write outside the outstanding region leaves the layout alone. */
  lemma LayoutFrame(capacity: nat, data: seq<Octet>, head: nat, tail: nat, v: View, p: nat, o: Octet)
    requires Layout(capacity, data, head, tail, v)
    requires p < capacity
    requires tail <= head ==> p < tail || head <= p
    requires head < tail ==> head <= p < tail
    ensures Layout(capacity, data[p := o], head, tail, v)
  {
    var data' := data[p := o];
    if tail <= head {
      assert data'[tail..head] == data[tail..head];
    } else {
      assert data'[tail..v.mark] == data[tail..v.mark];
      assert data'[v.mark..v.mark + 4] == data[v.mark..v.mark + 4];
      assert data'[..head] == data[..head];
    }
  }

  lemma PushStartKeeps(s: State, m: Message, s': State, v: View)
    requires Inv(s, v) && Next(s, PushStart(m), s')
    ensures Inv(s', v)
  {
    PlanMeaning(s.capacity, s.head, s.tail, |m|);
  }

  /** One more octet lengthens the written prefix. */
  lemma ExtendPrefix(data: seq<Octet>, at: nat, i: nat, whole: seq<Octet>)
    requires at + i < |data| && i < |whole| && data[at..at + i] == whole[..i]
    ensures data[at + i := whole[i]][at..at + i + 1] == whole[..i + 1]
  {
    var data' := data[at + i := whole[i]];
    assert data'[at..at + i] == data[at..at + i];
    assert data'[at..at + i + 1] == data'[at..at + i] + [whole[i]];
  }

  lemma WriteStraight(s: State, s': State)
    requires |s.data| == s.capacity && s.head <= s.capacity - 4 && ProducerOk(s) && Next(s, PushWrite, s')
    requires s.producer.plan == Straight
    ensures ProducerOk(s')
  {
    ExtendPrefix(s.data, s.head, s.producer.done, Encode(s.producer.message));
  }

  lemma MarkWritten(data: seq<Octet>, head: nat, i: nat)
    requires head + 4 <= |data| && i < 4 && data[head..head + i] == SKIP_MARKER[..i]
    ensures data[head + i := 255][head..head + i + 1] == SKIP_MARKER[..i + 1]
  {
    ExtendPrefix(data, head, i, SKIP_MARKER);
  }

  lemma WriteMark(s: State, s': State)
    requires |s.data| == s.capacity && s.head <= s.capacity - 4 && ProducerOk(s) && Next(s, PushWrite, s')
    requires s.producer.plan == Around && s.producer.done < 4
    ensures ProducerOk(s')
  {
    MarkWritten(s.data, s.head, s.producer.done);
    assert Encode(s.producer.message)[..0] == [] && SKIP_MARKER[..4] == SKIP_MARKER;
  }

  lemma WriteBody(s: State, s': State)
    requires |s.data| == s.capacity && s.head <= s.capacity - 4 && ProducerOk(s) && Next(s, PushWrite, s')
    requires s.producer.plan == Around && s.producer.done >= 4
    ensures ProducerOk(s')
  {
  }

  lemma PushWriteKeeps(s: State, s': State, v: View)
    requires Inv(s, v) && Next(s, PushWrite, s')
    ensures Inv(s', v)
  {
    var Writing(m, plan, i) := s.producer;
    LayoutFrame(s.capacity, s.data, s.head, s.tail, v, WritePlace(plan, s.head, i), WriteOctet(plan, m, i));
    if plan == Straight { WriteStraight(s, s'); } else if i < 4 { WriteMark(s, s'); } else { WriteBody(s, s'); }
  }

  /** The view after the message is published. */
  ghost function Published(s: State, v: View): View
    requires s.producer.Writing?
  {
    var m := s.producer.message;
    if s.producer.plan == Around then View(v.first, [m], s.head)
    else if s.tail <= s.head then v.(first := v.first + [m])
    else v.(second := v.second + [m])
  }

  lemma AppendStraight(data: seq<Octet>, at: nat, head: nat, q: seq<Message>, m: Message)
    requires at <= head && head + 4 + |m| <= |data|
    requires data[at..head] == EncodeAll(q) && data[head..head + 4 + |m|] == Encode(m)
    ensures data[at..head + 4 + |m|] == EncodeAll(q + [m])
  {
    EncodeAppend(q, m);
    assert data[at..head + 4 + |m|] == data[at..head] + data[head..head + 4 + |m|];
  }

  lemma PublishStraight(s: State, v: View)
    requires Inv(s, v) && s.producer.Writing? && s.producer.plan == Straight
    requires s.producer.done == 4 + |s.producer.message|
    ensures Layout(s.capacity, s.data, s.head + 4 + |s.producer.message|, s.tail, Published(s, v))
  {
    var m := s.producer.message;
    assert Encode(m)[..4 + |m|] == Encode(m);
    if s.tail <= s.head {
      AppendStraight(s.data, s.tail, s.head, v.first, m);
    } else {
      AppendStraight(s.data, 0, s.head, v.second, m);
    }
  }

  lemma PublishQueue(s: State, v: View)
    requires Inv(s, v) && s.producer.Writing?
    ensures Published(s, v).Queue() == v.Queue() + [s.producer.message]
    ensures v.first == [] ==> Published(s, v).first == [] || v.Queue() == []
    ensures v.first != [] ==> Published(s, v).first != []
  {}

  lemma PublishKeeps(s: State, v: View, head: nat)
    requires Inv(s, v) && s.producer.Writing?
    requires Layout(s.capacity, s.data, head, s.tail, Published(s, v))
    ensures Inv(s.(producer := Resting, head := head, accepted := s.accepted + [s.producer.message]), Published(s, v))
  {
    PublishQueue(s, v);
    assert s.passed + v.Queue() + [s.producer.message] == s.passed + (v.Queue() + [s.producer.message]);
  }

  lemma PublishLayout(s: State, v: View)
    requires Inv(s, v) && s.producer.Writing?
    requires s.producer.done == WriteCount(s.producer.plan, s.producer.message)
    ensures Layout(s.capacity, s.data, NextHead(s.producer.plan, s.head, s.producer.message), s.tail, Published(s, v))
  {
    if s.producer.plan == Straight { PublishStraight(s, v); }
  }

  lemma PushPublishKeeps(s: State, s': State, v: View)
    requires Inv(s, v) && Next(s, PushPublish, s')
    ensures Inv(s', Published(s, v))
    ensures Published(s, v).Queue() == v.Queue() + [s.producer.message]
  {
    PublishLayout(s, v);
    PublishQueue(s, v);
    PublishKeeps(s, v, s'.head);
  }

  // ---- The consumer

  /** What a consumer reads at the tail when the oldest message is there. */
  lemma OldestAhead(s: State, v: View)
    requires Inv(s, v) && v.first != []
    ensures ReadLength(s.data, s.tail) == |v.first[0]|
    ensures s.tail + 8 + |v.first[0]| <= s.capacity
    ensures s.data[s.tail + 4..s.tail + 4 + |v.first[0]|] == v.first[0]
  {
    ReadFirst(s.data, s.tail, if s.tail <= s.head then s.head else v.mark, v.first);
  }

  /** What it reads when only messages behind the skip marker are left. */
  lemma OldestAround(s: State, v: View)
    requires Inv(s, v) && v.first == [] && v.second != []
    ensures ReadLength(s.data, s.tail) == SKIP && ReadLength(s.data, 0) == |v.second[0]|
    ensures 8 + |v.second[0]| <= s.capacity
    ensures s.data[4..4 + |v.second[0]|] == v.second[0]
  {
    SkipValue();
    assert s.data[0..s.head] == s.data[..s.head];
    ReadFirst(s.data, 0, s.head, v.second);
  }

  /** A pull finds the oldest message, except when there is none or it is empty. */
  lemma PullMeaning(s: State, v: View, loaded: nat)
    requires Inv(s, v) && loaded < U32 && (loaded != s.tail ==> v.Queue() != [])
    ensures s.Seen(loaded).WellSized()
    ensures loaded == s.tail ==> Pull(s.Seen(loaded)).Nothing?
    ensures loaded != s.tail && v.Queue()[0] == [] ==> Pull(s.Seen(loaded)).Nothing?
    ensures loaded != s.tail && v.Queue()[0] != [] ==>
      Pull(s.Seen(loaded)) == Slice(HEADER + 4 + (if v.first != [] then s.tail else 0), |v.Queue()[0]|)
  {
    if loaded != s.tail {
      if v.first != [] { OldestAhead(s, v); } else { OldestAround(s, v); }
    }
  }

  /** A consumer that only remembers something else leaves the rest of the invariant alone. */
  lemma ConsumerMoves(s: State, c: Consumer, v: View)
    requires Inv(s, v) && ConsumerOk(s.(consumer := c), v)
    ensures Inv(s.(consumer := c), v)
  {}

  lemma LoadKeeps(s: State, c: Consumer, v: View)
    requires Inv(s, v) && (c == Pulling(s.head) || c == Committing(s.head))
    ensures Inv(s.(consumer := c), v)
  {
    LayoutEmpty(s.capacity, s.data, s.head, s.tail, v);
    ConsumerMoves(s, c, v);
  }

  lemma PullReadKeeps(s: State, s': State, v: View)
    requires Inv(s, v) && Next(s, PullRead, s')
    ensures Inv(s', v)
  {
    PullMeaning(s, v, s.consumer.head);
    ConsumerMoves(s, s'.consumer, v);
  }

  /** The view after the oldest message is passed. */
  ghost function Dropped(v: View): View
    requires v.Queue() != []
  {
    if v.first != [] then v.(first := v.first[1..]) else View(v.second[1..], [], 0)
  }

  lemma DropQueue(v: View)
    requires v.Queue() != []
    ensures Dropped(v).Queue() == v.Queue()[1..]
  {}

  /** A commit passes the oldest message, except an empty one behind the skip marker. */
  lemma CommitMeaning(s: State, v: View, loaded: nat)
    requires Inv(s, v) && loaded < U32 && (loaded != s.tail ==> v.Queue() != [])
    ensures s.Seen(loaded).WellSized()
    ensures loaded == s.tail ==> CommitTail(s.Seen(loaded)) == s.tail
    ensures loaded != s.tail && v.first != [] ==> CommitTail(s.Seen(loaded)) == s.tail + 4 + |v.Queue()[0]|
    ensures loaded != s.tail && v.first == [] && v.second[0] != [] ==> CommitTail(s.Seen(loaded)) == 4 + |v.Queue()[0]|
    ensures loaded != s.tail && v.first == [] && v.second[0] == [] ==> CommitTail(s.Seen(loaded)) == s.tail
    ensures loaded != s.tail ==> PassedMessage(s) == v.Queue()[0]
  {
    if loaded != s.tail {
      if v.first != [] { CommitAhead(s, v, loaded); } else { CommitAround(s, v, loaded); }
    }
  }

  lemma CommitAhead(s: State, v: View, loaded: nat)
    requires Inv(s, v) && loaded < U32 && loaded != s.tail && v.first != []
    ensures s.Seen(loaded).WellSized() && CommitTail(s.Seen(loaded)) == s.tail + 4 + |v.first[0]|
    ensures PassedMessage(s) == v.first[0]
  {
    OldestAhead(s, v);
  }

  lemma CommitAround(s: State, v: View, loaded: nat)
    requires Inv(s, v) && loaded < U32 && loaded != s.tail && v.first == [] && v.second != []
    ensures s.Seen(loaded).WellSized()
    ensures CommitTail(s.Seen(loaded)) == if v.second[0] == [] then s.tail else 4 + |v.second[0]|
    ensures PassedMessage(s) == v.second[0]
  {
    OldestAround(s, v);
  }

  lemma DropLayout(s: State, v: View)
    requires Inv(s, v) && v.Queue() != []
    ensures Layout(s.capacity, s.data, s.head,
                   (if v.first != [] then s.tail else 0) + 4 + |v.Queue()[0]|, Dropped(v))
  {
    if v.first != [] {
      ReadFirst(s.data, s.tail, if s.tail <= s.head then s.head else v.mark, v.first);
    } else {
      assert s.data[0..s.head] == s.data[..s.head];
      ReadFirst(s.data, 0, s.head, v.second);
    }
  }

  /** The state after the oldest message is passed. */
  ghost function Passed(s: State, v: View): State
    requires v.Queue() != []
  {
    s.(consumer := Idle,
       tail := (if v.first != [] then s.tail else 0) + 4 + |v.Queue()[0]|,
       passed := s.passed + [v.Queue()[0]])
  }

  lemma PassedProducer(s: State, v: View)
    requires Inv(s, v) && v.Queue() != []
    ensures ProducerOk(Passed(s, v))
  {
    TailMoves(s, v);
  }

  /** The tail moves towards the head and never over it. */
  lemma TailMoves(s: State, v: View)
    requires Inv(s, v) && v.Queue() != []
    ensures s.tail <= s.head ==> s.tail <= Passed(s, v).tail <= s.head
    ensures s.head < s.tail ==> Passed(s, v).tail <= s.head || s.tail <= Passed(s, v).tail
  {
    if v.first != [] {
      ReadFirst(s.data, s.tail, if s.tail <= s.head then s.head else v.mark, v.first);
    } else {
      assert s.data[0..s.head] == s.data[..s.head];
      ReadFirst(s.data, 0, s.head, v.second);
    }
  }

  lemma PassedKeeps(s: State, v: View)
    requires Inv(s, v) && v.Queue() != []
    ensures Inv(Passed(s, v), Dropped(v))
  {
    DropLayout(s, v);
    PassedProducer(s, v);
    DropQueue(v);
    MoveOne(s.passed, v.Queue());
  }

  lemma MoveOne(passed: seq<Message>, q: seq<Message>)
    requires q != []
    ensures passed + q == passed + [q[0]] + q[1..]
  {}

  lemma CommitStoreIs(s: State, s': State, v: View)
    requires Inv(s, v) && Next(s, CommitStore, s')
    ensures s'.tail == s.tail ==> s' == s.(consumer := Idle)
    ensures s'.tail != s.tail ==> v.Queue() != [] && s' == Passed(s, v)
  {
    CommitMeaning(s, v, s.consumer.head);
  }

  lemma CommitStoreKeeps(s: State, s': State, v: View)
    requires Inv(s, v) && Next(s, CommitStore, s')
    ensures s'.tail == s.tail ==> s' == s.(consumer := Idle) && Inv(s', v)
    ensures s'.tail != s.tail ==> v.Queue() != [] && s' == Passed(s, v) && Inv(s', Dropped(v))
  {
    CommitStoreIs(s, s', v);
    if s'.tail != s.tail { PassedKeeps(s, v); } else { ConsumerMoves(s, Idle, v); }
  }

  // ---- Runs

  /** The view after a step. */
  ghost function After(s: State, step: Step, s': State, v: View): View
    requires Inv(s, v) && Next(s, step, s')
  {
    if step.PushPublish? then Published(s, v)
    else if step.CommitStore? && s'.tail != s.tail then (CommitStoreKeeps(s, s', v); Dropped(v))
    else v
  }

  /** Every step keeps the invariant, and is a step of a queue: append, remove the oldest, or nothing. */
  lemma StepKeeps(s: State, step: Step, s': State, v: View)
    requires Inv(s, v) && Next(s, step, s')
    ensures Inv(s', After(s, step, s', v))
    ensures var q, q' := v.Queue(), After(s, step, s', v).Queue();
      if step.PushPublish? then q' == q + [s.producer.message]
      else if step.CommitStore? && s'.tail != s.tail then q != [] && q' == q[1..]
      else q' == q
  {
    match step
    case PushStart(m) => PushStartKeeps(s, m, s', v);
    case PushWrite => PushWriteKeeps(s, s', v);
    case PushPublish => PushPublishKeeps(s, s', v);
    case PullLoad => LoadKeeps(s, Pulling(s.head), v);
    case PullRead => PullReadKeeps(s, s', v);
    case CommitLoad => LoadKeeps(s, Committing(s.head), v);
    case CommitStore =>
      CommitStoreKeeps(s, s', v);
      if s'.tail != s.tail { DropQueue(v); }
  }

  ghost predicate IsRun(states: seq<State>, steps: seq<Step>) {
    && |states| == |steps| + 1
    && Init(states[0])
    && forall i :: 0 <= i < |steps| ==> Next(states[i], steps[i], states[i + 1])
  }

  lemma {:induction false} RunInvariant(states: seq<State>, steps: seq<Step>, n: nat) returns (v: View)
    requires IsRun(states, steps) && n <= |steps|
    ensures Inv(states[n], v)
  {
    if n == 0 {
      v := View([], [], 0);
    } else {
      var u := RunInvariant(states, steps, n - 1);
      StepKeeps(states[n - 1], steps[n - 1], states[n], u);
      v := After(states[n - 1], steps[n - 1], states[n], u);
    }
  }

  /**
   In every interleaving, the messages the tail has passed are the first of the
   accepted ones, in order and byte for byte; a slice that the consumer holds
   contains the next one, however far the producer has got in the meantime.
   */
  lemma Delivery(states: seq<State>, steps: seq<Step>, n: nat)
    requires IsRun(states, steps) && n <= |steps|
    ensures states[n].passed <= states[n].accepted
    ensures states[n].consumer.Holding? ==>
      var r, s := states[n].consumer.slice, states[n];
      && |s.passed| < |s.accepted|
      && r.Slice? && HEADER <= r.offset && r.offset + r.length <= HEADER + |s.data|
      && s.data[r.offset - HEADER..r.offset - HEADER + r.length] == s.accepted[|s.passed|]
    ensures states[n].head <= states[n].capacity - 4 && states[n].tail <= states[n].capacity - 4
  {
    var v := RunInvariant(states, steps, n);
    var s := states[n];
    if s.consumer.Holding? {
      if v.first != [] { OldestAhead(s, v); } else { OldestAround(s, v); }
    }
  }

  ghost predicate IsProducerStep(step: Step) { step.PushStart? || step.PushWrite? || step.PushPublish? }

  lemma {:induction false} ProducerOnly(states: seq<State>, steps: seq<Step>, i: nat, j: nat)
    requires IsRun(states, steps) && i <= j <= |steps|
    requires forall l :: i <= l < j ==> IsProducerStep(steps[l])
    ensures states[j].consumer == states[i].consumer && states[j].tail == states[i].tail
    ensures states[j].passed == states[i].passed && states[i].accepted <= states[j].accepted
    decreases j
  {
    if i < j {
      ProducerOnly(states, steps, i, j - 1);
      assert Next(states[j - 1], steps[j - 1], states[j]);
    }
  }

  /**
   A commit after a pull moves the tail past exactly the message that was held, whatever the producer does
   meanwhile.
   */
  lemma CommitPassesHeld(states: seq<State>, steps: seq<Step>, i: nat, j: nat)
    requires IsRun(states, steps) && i < j < |steps|
    requires states[i].consumer.Holding? && steps[i] == CommitLoad && steps[j] == CommitStore
    requires forall l :: i < l < j ==> IsProducerStep(steps[l])
    ensures |states[i].passed| < |states[i].accepted|
    ensures states[j + 1].passed == states[i].passed + [states[i].accepted[|states[i].passed|]]
  {
    var u := RunInvariant(states, steps, i);
    var v := RunInvariant(states, steps, j);
    assert Next(states[i], steps[i], states[i + 1]);
    ProducerOnly(states, steps, i + 1, j);
    LayoutEmpty(states[i].capacity, states[i].data, states[i].head, states[i].tail, u);
    assert states[j].consumer == Committing(states[i].head);
    assert v.Queue() != [];
    assert v.Queue()[0] == states[j].accepted[|states[j].passed|] == u.Queue()[0];
    assert Next(states[j], steps[j], states[j + 1]);
    CommitMeaning(states[j], v, states[i].head);
    CommitStoreKeeps(states[j], states[j + 1], v);
  }

  /** No index of the code is out of range in any reachable state. */
  lemma InRange(s: State, v: View)
    requires Inv(s, v)
    ensures s.producer.Writing? && s.producer.done < WriteCount(s.producer.plan, s.producer.message) ==>
      WritePlace(s.producer.plan, s.head, s.producer.done) < |s.data|
    ensures s.consumer.Pulling? || s.consumer.Committing? ==> s.Seen(s.consumer.head).WellSized()
  {}

  // ---- Room

  /** Wherever head and tail meet, an empty ring takes a message exactly when it fits before or after them. */
  lemma EmptyAccepts(capacity: nat, at: nat, n: nat)
    requires 16 <= capacity <= 0x8000_0000 && at <= capacity - 4 && 4 + n < U32
    ensures PushPlan(capacity, at, at, n) != Refuse <==> at + 8 + n <= capacity || (8 + n <= capacity && 4 + n < at)
  {
    PlanMeaning(capacity, at, at, n);
  }

  /** The largest message an empty ring takes at every position is the one with 2 (4 + n) + 4 <= capacity. */
  lemma EmptyAcceptsEverywhere(capacity: nat, n: nat)
    requires 16 <= capacity <= 0x8000_0000 && 4 + n < U32
    ensures 2 * (4 + n) + 4 <= capacity <==>
      forall at: nat :: at <= capacity - 4 ==> PushPlan(capacity, at, at, n) != Refuse
  {
    forall at: nat | at <= capacity - 4
      ensures PushPlan(capacity, at, at, n) != Refuse <==> at + 8 + n <= capacity || (8 + n <= capacity && 4 + n < at)
    {
      EmptyAccepts(capacity, at, n);
    }
    if 2 * (4 + n) + 4 > capacity {
      var at := if 4 + n <= capacity - 4 then 4 + n else 0;
      assert PushPlan(capacity, at, at, n) == Refuse;
    }
  }

  // ---- Progress

  /** The oldest outstanding message is empty and sits behind the skip marker. */
  ghost predicate Stuck(s: State) {
    && |s.passed| < |s.accepted| && s.accepted[|s.passed|] == []
    && s.tail + 4 <= |s.data| && ReadLength(s.data, s.tail) == SKIP
  }

  lemma StuckMeans(s: State, v: View)
    requires Inv(s, v)
    ensures Stuck(s) <==> v.first == [] && v.second != [] && v.second[0] == []
  {
    if v.first != [] {
      OldestAhead(s, v);
    } else if v.second != [] {
      OldestAround(s, v);
    }
  }

  /** Over every run: a pull ends with a slice exactly when it loaded another head and the next message is not empty. */
  lemma PullExactly(states: seq<State>, steps: seq<Step>, n: nat)
    requires IsRun(states, steps) && n < |steps| && steps[n] == PullRead
    ensures states[n].consumer.Pulling?
    ensures var s, loaded := states[n], states[n].consumer.head;
      && (loaded != s.tail ==> |s.passed| < |s.accepted|)
      && (states[n + 1].consumer.Holding? <==> loaded != s.tail && s.accepted[|s.passed|] != [])
  {
    var v := RunInvariant(states, steps, n);
    assert Next(states[n], steps[n], states[n + 1]);
    PullMeaning(states[n], v, states[n].consumer.head);
  }

  /**
   Over every run: a commit that loaded another head passes the next message, and keeps the tail
   exactly when that message is empty and behind the marker.
   */
  lemma CommitExactly(states: seq<State>, steps: seq<Step>, n: nat)
    requires IsRun(states, steps) && n < |steps| && steps[n] == CommitStore
    ensures states[n].consumer.Committing?
    ensures var s, s', loaded := states[n], states[n + 1], states[n].consumer.head;
      && (loaded != s.tail ==> |s.passed| < |s.accepted|)
      && (s'.tail == s.tail <==> loaded == s.tail || Stuck(s))
      && s'.passed == s.passed + if s'.tail == s.tail then [] else [s.accepted[|s.passed|]]
  {
    var v := RunInvariant(states, steps, n);
    var s, s' := states[n], states[n + 1];
    assert Next(s, steps[n], s');
    StuckMeans(s, v);
    CommitMoves(s, s', v);
  }

  lemma CommitMoves(s: State, s': State, v: View)
    requires Inv(s, v) && Next(s, CommitStore, s')
    ensures s'.tail == s.tail <==>
      s.consumer.head == s.tail || (v.first == [] && v.second != [] && v.second[0] == [])
    ensures s'.tail != s.tail ==> v.Queue() != []
    ensures s'.passed == s.passed + if s'.tail == s.tail then [] else [v.Queue()[0]]
  {
    CommitMeaning(s, v, s.consumer.head);
    if s.consumer.head != s.tail { TailMoves(s, v); }
  }

  lemma {:induction false} RunGrows(states: seq<State>, steps: seq<Step>, i: nat, j: nat)
    requires IsRun(states, steps) && i <= j <= |steps|
    ensures states[i].accepted <= states[j].accepted && states[i].passed <= states[j].passed
    decreases j
  {
    if i < j {
      RunGrows(states, steps, i, j - 1);
    }
  }

  /** Between the load of a commit and its store only the producer moves. */
  lemma {:induction false} OnlyProducer(states: seq<State>, steps: seq<Step>, i: nat, j: nat)
    requires IsRun(states, steps) && i <= j <= |steps| && states[i].consumer.Committing?
    requires forall l :: i <= l < j ==> steps[l] != CommitStore
    ensures forall l :: i <= l < j ==> IsProducerStep(steps[l])
    ensures states[j].consumer == states[i].consumer
    decreases j
  {
    if i < j {
      OnlyProducer(states, steps, i, j - 1);
      assert Next(states[j - 1], steps[j - 1], states[j]);
    }
  }

  /** A commit from its load at i to its store at j. */
  ghost predicate IsRound(steps: seq<Step>, i: nat, j: nat) {
    && i < j < |steps| && steps[i] == CommitLoad && steps[j] == CommitStore
    && forall l :: i < l < j ==> steps[l] != CommitStore
  }

  /** A round begun with messages outstanding passes exactly the next one, unless the ring is stuck. */
  lemma RoundPasses(states: seq<State>, steps: seq<Step>, i: nat, j: nat)
    requires IsRun(states, steps) && IsRound(steps, i, j)
    ensures var s, s' := states[i], states[j + 1];
      s'.passed == s.passed + if |s.passed| < |s.accepted| && !Stuck(states[j]) then [s.accepted[|s.passed|]] else []
  {
    var v := RunInvariant(states, steps, i);
    assert Next(states[i], steps[i], states[i + 1]);
    OnlyProducer(states, steps, i + 1, j);
    ProducerOnly(states, steps, i + 1, j);
    CommitExactly(states, steps, j);
  }

  /** No message that the producer starts is empty. */
  ghost predicate NoneEmpty(steps: seq<Step>) {
    forall l :: 0 <= l < |steps| && steps[l].PushStart? ==> steps[l].message != []
  }

  lemma {:induction false} NeverStuck(states: seq<State>, steps: seq<Step>, n: nat)
    requires IsRun(states, steps) && n <= |steps| && NoneEmpty(steps)
    ensures [] !in states[n].accepted && (states[n].producer.Writing? ==> states[n].producer.message != [])
    ensures !Stuck(states[n])
  {
    if n > 0 {
      NeverStuck(states, steps, n - 1);
      assert Next(states[n - 1], steps[n - 1], states[n]);
    }
  }

  /** Without empty messages every round passes one more message, as long as there is one. */
  lemma Progress(states: seq<State>, steps: seq<Step>, i: nat, j: nat)
    requires IsRun(states, steps) && IsRound(steps, i, j) && NoneEmpty(steps)
    ensures var s, s' := states[i], states[j + 1];
      s'.passed == s.passed + if |s.passed| < |s.accepted| then [s.accepted[|s.passed|]] else []
  {
    NeverStuck(states, steps, j);
    RoundPasses(states, steps, i, j);
  }

  /** Rounds one after the other, all begun at or after a point of the run; anything may happen between them. */
  ghost predicate AreRounds(steps: seq<Step>, from: nat, rounds: seq<(nat, nat)>) {
    && (forall k :: 0 <= k < |rounds| ==> IsRound(steps, rounds[k].0, rounds[k].1) && from <= rounds[k].0)
    && (forall k, l :: 0 <= k < l < |rounds| ==> rounds[k].1 < rounds[l].0)
  }

  /** Where the last of the rounds ends. */
  function EndOf(from: nat, rounds: seq<(nat, nat)>): nat {
    if rounds == [] then from else rounds[|rounds| - 1].1 + 1
  }

  lemma {:induction false} RoundsCount(states: seq<State>, steps: seq<Step>, n: nat, rounds: seq<(nat, nat)>)
    requires IsRun(states, steps) && n <= |steps| && NoneEmpty(steps) && AreRounds(steps, n, rounds)
    ensures EndOf(n, rounds) <= |steps|
    ensures var a, p := |states[n].accepted|, |states[n].passed|;
      |states[EndOf(n, rounds)].passed| >= if p + |rounds| < a then p + |rounds| else a
  {
    if rounds == [] {
      Delivery(states, steps, n);
    } else {
      var k := |rounds| - 1;
      RoundsCount(states, steps, n, rounds[..k]);
      var (i, j) := rounds[k];
      RunGrows(states, steps, EndOf(n, rounds[..k]), i);
      RunGrows(states, steps, n, i);
      Delivery(states, steps, i);
      Progress(states, steps, i, j);
    }
  }

  /** After as many rounds as there were messages outstanding, all that had been accepted is passed, in order. */
  lemma AllDelivered(states: seq<State>, steps: seq<Step>, n: nat, rounds: seq<(nat, nat)>)
    requires IsRun(states, steps) && n <= |steps| && NoneEmpty(steps) && AreRounds(steps, n, rounds)
    requires |rounds| >= |states[n].accepted| - |states[n].passed|
    ensures EndOf(n, rounds) <= |steps| && states[n].accepted <= states[EndOf(n, rounds)].passed
  {
    RoundsCount(states, steps, n, rounds);
    RunGrows(states, steps, n, EndOf(n, rounds));
    Delivery(states, steps, EndOf(n, rounds));
  }

  // ---- Empty messages

  lemma StuckStep(s: State, step: Step, s': State, v: View)
    requires Inv(s, v) && Stuck(s) && Next(s, step, s')
    ensures Stuck(s') && s'.tail == s.tail && s'.passed == s.passed && !s'.consumer.Holding?
  {
    StuckMeans(s, v);
    StepKeeps(s, step, s', v);
    StuckView(s, step, s', v);
    StuckMeans(s', After(s, step, s', v));
  }

  lemma StuckView(s: State, step: Step, s': State, v: View)
    requires Inv(s, v) && Next(s, step, s') && v.first == [] && v.second != [] && v.second[0] == []
    ensures s'.tail == s.tail && s'.passed == s.passed && !s'.consumer.Holding?
    ensures var v' := After(s, step, s', v); v'.first == [] && v'.second != [] && v'.second[0] == []
  {
    if step.PullRead? { PullMeaning(s, v, s.consumer.head); }
    if step.CommitStore? { CommitMeaning(s, v, s.consumer.head); }
    if step.PushPublish? { LayoutEmpty(s.capacity, s.data, s.head, s.tail, v); }
  }

  /** Once stuck, the ring is stuck at every later point of every run, and nothing is delivered or passed. */
  lemma {:induction false} StuckForever(states: seq<State>, steps: seq<Step>, i: nat, j: nat)
    requires IsRun(states, steps) && i <= j <= |steps| && Stuck(states[i])
    ensures Stuck(states[j]) && states[j].tail == states[i].tail && states[j].passed == states[i].passed
    ensures !states[j].consumer.Holding?
    decreases j
  {
    if i == j {
      StuckNow(states, steps, i);
    } else {
      StuckForever(states, steps, i, j - 1);
      StuckNext(states, steps, j - 1);
    }
  }

  lemma StuckNow(states: seq<State>, steps: seq<Step>, i: nat)
    requires IsRun(states, steps) && i <= |steps| && Stuck(states[i])
    ensures !states[i].consumer.Holding?
  {
    var v := RunInvariant(states, steps, i);
    StuckMeans(states[i], v);
  }

  lemma StuckNext(states: seq<State>, steps: seq<Step>, i: nat)
    requires IsRun(states, steps) && i < |steps| && Stuck(states[i])
    ensures Stuck(states[i + 1]) && states[i + 1].tail == states[i].tail && states[i + 1].passed == states[i].passed
    ensures !states[i + 1].consumer.Holding?
  {
    var v := RunInvariant(states, steps, i);
    StuckStep(states[i], steps[i], states[i + 1], v);
  }

  // ---- Whole pushes and commits

  ghost predicate IsPath(states: seq<State>, steps: seq<Step>) {
    && |states| == |steps| + 1
    && forall i :: 0 <= i < |steps| ==> Next(states[i], steps[i], states[i + 1])
  }

  ghost predicate Reachable(s: State) {
    exists states, steps :: IsRun(states, steps) && states[|steps|] == s
  }

  lemma ReachNext(s: State, step: Step, s': State)
    requires Reachable(s) && Next(s, step, s')
    ensures Reachable(s')
  {
    var states, steps :| IsRun(states, steps) && states[|steps|] == s;
    var states', steps' := states + [s'], steps + [step];
    forall i | 0 <= i < |steps'| ensures Next(states'[i], steps'[i], states'[i + 1]) {
      if i < |steps| { assert Next(states[i], steps[i], states[i + 1]); }
    }
    assert IsRun(states', steps') && states'[|steps'|] == s';
  }

  lemma {:induction false} ReachPath(states: seq<State>, steps: seq<Step>, n: nat)
    requires IsPath(states, steps) && Reachable(states[0]) && n <= |steps|
    ensures Reachable(states[n])
  {
    if n > 0 {
      ReachPath(states, steps, n - 1);
      ReachNext(states[n - 1], steps[n - 1], states[n]);
    }
  }

  lemma ReachInv(s: State) returns (v: View)
    requires Reachable(s)
    ensures Inv(s, v)
  {
    var states, steps :| IsRun(states, steps) && states[|steps|] == s;
    v := RunInvariant(states, steps, |steps|);
  }

  /** The memory after the first n writes of a push. */
  function Written(data: seq<Octet>, plan: Plan, head: nat, m: Message, n: nat): (r: seq<Octet>)
    requires n <= WriteCount(plan, m)
    requires forall i :: 0 <= i < n ==> WritePlace(plan, head, i) < |data|
    ensures |r| == |data|
  {
    if n == 0 then data
    else Written(data, plan, head, m, n - 1)[WritePlace(plan, head, n - 1) := WriteOctet(plan, m, n - 1)]
  }

  /** A push that is not refused, and whose writes are inside the data. */
  ghost predicate Fits(s: State, m: Message) {
    && s.producer.Resting? && 4 + |m| < U32
    && var plan := PushPlan(s.capacity, s.head, s.tail, |m|);
    && plan != Refuse && forall i :: 0 <= i < WriteCount(plan, m) ==> WritePlace(plan, s.head, i) < |s.data|
  }

  /** The state after a whole push. */
  ghost function Pushed(s: State, m: Message): State
    requires Fits(s, m)
  {
    var plan := PushPlan(s.capacity, s.head, s.tail, |m|);
    s.(head := NextHead(plan, s.head, m), accepted := s.accepted + [m],
       data := Written(s.data, plan, s.head, m, WriteCount(plan, m)))
  }

  ghost function PushSteps(plan: Plan, m: Message): seq<Step> {
    [PushStart(m)] + seq(WriteCount(plan, m), _ => PushWrite) + [PushPublish]
  }

  /** The state of a push before its step i. */
  ghost function DuringPush(s: State, m: Message, i: nat): State
    requires Fits(s, m) && i <= WriteCount(PushPlan(s.capacity, s.head, s.tail, |m|), m) + 2
  {
    var plan := PushPlan(s.capacity, s.head, s.tail, |m|);
    if i == 0 then s
    else if i == WriteCount(plan, m) + 2 then Pushed(s, m)
    else s.(producer := Writing(m, plan, i - 1), data := Written(s.data, plan, s.head, m, i - 1))
  }

  lemma DuringPushNext(s: State, m: Message, i: nat)
    requires Fits(s, m) && i < WriteCount(PushPlan(s.capacity, s.head, s.tail, |m|), m) + 2
    ensures var plan := PushPlan(s.capacity, s.head, s.tail, |m|);
      Next(DuringPush(s, m, i), PushSteps(plan, m)[i], DuringPush(s, m, i + 1))
  {}

  /** A whole push is its start, its writes one by one, and the publication of the head. */
  lemma PushPath(s: State, m: Message) returns (states: seq<State>)
    requires Fits(s, m)
    ensures var steps := PushSteps(PushPlan(s.capacity, s.head, s.tail, |m|), m);
      IsPath(states, steps) && states[0] == s && states[|steps|] == Pushed(s, m)
  {
    var plan := PushPlan(s.capacity, s.head, s.tail, |m|);
    var k := WriteCount(plan, m) + 2;
    states := seq(k + 1, i requires 0 <= i < k + 1 => DuringPush(s, m, i));
    forall i | 0 <= i < k ensures Next(states[i], PushSteps(plan, m)[i], states[i + 1]) { DuringPushNext(s, m, i); }
  }

  lemma FitsInv(s: State, v: View, m: Message)
    requires Inv(s, v) && s.producer.Resting? && 4 + |m| < U32
    requires PushPlan(s.capacity, s.head, s.tail, |m|) != Refuse
    ensures Fits(s, m)
  {
    PlanMeaning(s.capacity, s.head, s.tail, |m|);
  }

  lemma ReachPush(s: State, m: Message)
    requires Reachable(s) && s.producer.Resting? && 4 + |m| < U32
    requires PushPlan(s.capacity, s.head, s.tail, |m|) != Refuse
    ensures Fits(s, m) && Reachable(Pushed(s, m))
  {
    var v := ReachInv(s);
    FitsInv(s, v, m);
    var states := PushPath(s, m);
    var steps := PushSteps(PushPlan(s.capacity, s.head, s.tail, |m|), m);
    ReachPath(states, steps, |steps|);
  }

  /** An idle consumer passes the oldest message of a ring that has not wrapped. */
  lemma ReachCommit(s: State) returns (s': State)
    requires Reachable(s) && s.consumer.Idle? && s.tail < s.head && |s.passed| < |s.accepted|
    ensures Reachable(s') && |s'.passed| == |s.passed| + 1
    ensures s' == s.(tail := s.tail + 4 + |s.accepted[|s.passed|]|, passed := s'.passed)
  {
    var v := ReachInv(s);
    var loaded := s.(consumer := Committing(s.head));
    ReachNext(s, CommitLoad, loaded);
    LoadKeeps(s, Committing(s.head), v);
    CommitMeaning(loaded, v, s.head);
    s' := s.(tail := s.tail + 4 + |v.first[0]|, passed := s.passed + [v.first[0]]);
    ReachNext(loaded, CommitStore, s');
  }

  /** For every capacity a stuck ring is reachable: fill it to the end, pass that, and push an empty message. */
  lemma StuckReachable(capacity: nat) returns (s: State)
    requires 16 <= capacity <= 0x8000_0000
    ensures Reachable(s) && s.capacity == capacity && Stuck(s) && |s.accepted| == 2 && |s.passed| == 1
  {
    var start := State(capacity, seq(capacity, _ => 0), 0, 0, Resting, Idle, [], []);
    assert IsRun([start], []);
    var long: Message := seq(capacity - 8, _ => 0);
    PlanMeaning(capacity, 0, 0, |long|);
    ReachPush(start, long);
    var passed := ReachCommit(Pushed(start, long));
    PlanMeaning(capacity, capacity - 4, capacity - 4, 0);
    ReachPush(passed, []);
    s := Pushed(passed, []);
    var v := ReachInv(s);
    StuckMeans(s, v);
  }
}
