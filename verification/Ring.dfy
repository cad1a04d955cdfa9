/** kernel/src/drivers/ps2.c: the ring buffer between the keyboard interrupt and PS2_get_scancode. */
module Ring {
  import opened Words

  const SIZE: nat := 16   // PS2_RING_BUFFER_SIZE

  datatype RingBuf = RingBuf(buf: seq<Byte>, head: nat, tail: nat)
  {
    predicate Valid() {
      |buf| == 16 && head < 16 && tail < 16
    }

    /** How many bytes are unread: from tail up to head, around the end of the buffer. */
    function Unread(): (n: nat)
      requires Valid()
      ensures n < 16
    {
      Distance(tail, head)
    }

    /** The unread bytes, oldest first. */
    function Content(): (s: seq<Byte>)
      requires Valid()
      ensures |s| == Unread()
    {
      seq(Unread(), i requires 0 <= i < 16 => buf[Slot(tail, i)])
    }
  }

  /** The i-th position after t. */
  function Slot(t: nat, i: nat): nat {
    if t + i < 16 then t + i else t + i - 16
  }

  /** How far it is from t on to h. */
  function Distance(t: nat, h: nat): int {
    if t <= h then h - t else h + 16 - t
  }

  lemma NextIsSlot(t: nat)
    requires t < 16
    ensures (t + 1) % 16 == Slot(t, 1)
  {
  }

  /** _PS2_ring_buf_push run to its end. */
  function Pushed(r: RingBuf, c: Byte): RingBuf
    requires r.Valid()
  {
    if (r.head + 1) % 16 == r.tail then r
    else r.(buf := r.buf[r.head := c], head := (r.head + 1) % 16)
  }

  /** _PS2_ring_buf_pop run to its end. */
  function Popped(r: RingBuf): (RingBuf, Option<Byte>)
    requires r.Valid()
  {
    if r.head == r.tail then (r, None)
    else (r.(tail := (r.tail + 1) % 16), Some(r.buf[r.tail]))
  }

  /** Storing at head touches no unread byte; moving head then appends the stored one. */
  lemma StoreThenPublish(r: RingBuf, c: Byte)
    requires r.Valid() && r.Unread() < 15
    ensures r.(buf := r.buf[r.head := c]).Content() == r.Content()
    ensures r.(buf := r.buf[r.head := c], head := (r.head + 1) % 16).Content() == r.Content() + [c]
  {
    var r1 := r.(buf := r.buf[r.head := c]);
    var r2 := r1.(head := (r.head + 1) % 16);
    NextIsSlot(r.head);
    assert r2.Unread() == r.Unread() + 1;
    forall i: nat | i < r.Unread() ensures r1.Content()[i] == r.Content()[i] == r2.Content()[i] {
      assert Slot(r.tail, i) != r.head;
    }
    assert Slot(r.tail, r.Unread()) == r.head;
    assert r2.Content()[r.Unread()] == c;
  }

  lemma AdvanceDropsFirst(r: RingBuf)
    requires r.Valid() && r.Unread() > 0
    ensures r.Content()[0] == r.buf[r.tail]
    ensures r.(tail := (r.tail + 1) % 16).Content() == r.Content()[1..]
  {
    var r1 := r.(tail := (r.tail + 1) % 16);
    NextIsSlot(r.tail);
    assert r1.Unread() == r.Unread() - 1;
    forall i: nat | i < r1.Unread() ensures r1.Content()[i] == r.Content()[i + 1] {
      assert Slot(r1.tail, i) == Slot(r.tail, i + 1);
    }
  }

  /** Run one at a time the operations are those of a queue that holds 15. */
  lemma QueueLaws(r: RingBuf, c: Byte)
    requires r.Valid()
    ensures Pushed(r, c).Valid() && Popped(r).0.Valid()
    ensures Pushed(r, c).Content() == if |r.Content()| == 15 then r.Content() else r.Content() + [c]
    ensures match Popped(r).1
      case None => r.Content() == [] && Popped(r).0 == r
      case Some(v) => r.Content() == [v] + Popped(r).0.Content()
  {
    if r.Unread() < 15 { StoreThenPublish(r, c); }
    if r.Unread() > 0 { AdvanceDropsFirst(r); }
  }

  class RingBuffer {
    const buf: array<Byte>
    var head: Byte
    var tail: Byte

    constructor ()
      ensures fresh(buf) && Valid() && State().Content() == []
    {
      buf := new Byte[16](_ => 0);
      head, tail := 0, 0;
    }

    predicate Valid()
      reads this
    {
      buf.Length == 16 && head < 16 && tail < 16
    }

    function State(): RingBuf
      reads this, buf
    {
      RingBuf(buf[..], head, tail)
    }

    method IsEmpty() returns (r: bool)
      requires Valid()
      ensures r <==> State().Content() == []
    {
      r := head == tail;
    }

    method IsFull() returns (r: bool)
      requires Valid()
      ensures r <==> |State().Content()| == 15
    {
      r := (head + 1) % SIZE == tail;
    }

    method Push(scancode: Byte)
      requires Valid()
      modifies this`head, buf
      ensures Valid() && State() == Pushed(old(State()), scancode)
    {
      var full := IsFull();
      if full { return; }
      buf[head] := scancode;
      head := (head + 1) % SIZE;
    }

    method Pop() returns (r: Option<Byte>)
      requires Valid()
      modifies this`tail
      ensures Valid() && (State(), r) == Popped(old(State()))
    {
      var empty := IsEmpty();
      if empty { return None; }
      r := Some(buf[tail]);
      tail := (tail + 1) % SIZE;
    }
  }

  // ----- every read and write on its own -----

  /** Where the interrupt handler is inside a push.  The full check reads head and tail in either
      order; `unread` records what was unread when it read tail. */
  datatype Producer =
    | Idle
    | Checking(c: Byte, headSeen: Option<nat>, tailSeen: Option<nat>, unread: nat)
    | Storing(c: Byte)
    | Publishing(c: Byte)

  /** Where the reader is inside a pop; `unread` records what was unread when it read head. */
  datatype Consumer =
    | Waiting
    | Testing(headSeen: Option<nat>, tailSeen: Option<nat>, unread: nat)
    | Fetching
    | Advancing(v: Byte)

  datatype System = System(
    ring: RingBuf,
    producer: Producer,
    consumer: Consumer,
    accepted: seq<Byte>,     // bytes published, in order
    delivered: seq<Byte>,    // bytes returned by pop, in order
    drops: seq<nat>,         // for each dropped byte, what its full check saw unread
    misses: seq<nat>)        // for each failed pop, what its empty check saw unread

  datatype Step =
    | Interrupt(c: Byte) | PushReadsHead | PushReadsTail | PushDecides | PushStores | PushPublishes
    | CallPop | PopReadsHead | PopReadsTail | PopDecides | PopFetches | PopAdvances

  predicate Enabled(s: System, e: Step) {
    match e
    case Interrupt(_) => s.producer.Idle?
    case PushReadsHead => s.producer.Checking? && s.producer.headSeen.None?
    case PushReadsTail => s.producer.Checking? && s.producer.tailSeen.None?
    case PushDecides => s.producer.Checking? && s.producer.headSeen.Some? && s.producer.tailSeen.Some?
    case PushStores => s.producer.Storing?
    case PushPublishes => s.producer.Publishing?
    case CallPop => s.consumer.Waiting?
    case PopReadsHead => s.consumer.Testing? && s.consumer.headSeen.None?
    case PopReadsTail => s.consumer.Testing? && s.consumer.tailSeen.None?
    case PopDecides => s.consumer.Testing? && s.consumer.headSeen.Some? && s.consumer.tailSeen.Some?
    case PopFetches => s.consumer.Fetching?
    case PopAdvances => s.consumer.Advancing?
  }

  function Apply(s: System, e: Step): System
    requires s.ring.Valid() && Enabled(s, e)
  {
    var r := s.ring;
    match e
    case Interrupt(c) => s.(producer := Checking(c, None, None, 0))
    case PushReadsHead => s.(producer := s.producer.(headSeen := Some(r.head)))
    case PushReadsTail => s.(producer := s.producer.(tailSeen := Some(r.tail), unread := r.Unread()))
    case PushDecides =>
      if (s.producer.headSeen.value + 1) % SIZE == s.producer.tailSeen.value
      then s.(producer := Idle, drops := s.drops + [s.producer.unread])
      else s.(producer := Storing(s.producer.c))
    case PushStores => s.(ring := r.(buf := r.buf[r.head := s.producer.c]), producer := Publishing(s.producer.c))
    case PushPublishes =>
      s.(ring := r.(head := (r.head + 1) % SIZE), producer := Idle, accepted := s.accepted + [s.producer.c])
    case CallPop => s.(consumer := Testing(None, None, 0))
    case PopReadsHead => s.(consumer := s.consumer.(headSeen := Some(r.head), unread := r.Unread()))
    case PopReadsTail => s.(consumer := s.consumer.(tailSeen := Some(r.tail)))
    case PopDecides =>
      if s.consumer.headSeen.value == s.consumer.tailSeen.value
      then s.(consumer := Waiting, misses := s.misses + [s.consumer.unread])
      else s.(consumer := Fetching)
    case PopFetches => s.(consumer := Advancing(r.buf[r.tail]))
    case PopAdvances =>
      s.(ring := r.(tail := (r.tail + 1) % SIZE), consumer := Waiting, delivered := s.delivered + [s.consumer.v])
  }

  /** What the producer may rely on: while it checks, head is its own and the reader only makes room. */
  predicate ProducerOk(s: System)
    requires s.ring.Valid()
  {
    match s.producer
    case Idle => true
    case Checking(_, h, t, u) =>
      && (h.Some? ==> h.value == s.ring.head)
      && (t.Some? ==> t.value < 16 && u == Distance(t.value, s.ring.head) && s.ring.Unread() <= u)
    case Storing(_) => s.ring.Unread() < 15
    case Publishing(c) => s.ring.Unread() < 15 && s.ring.buf[s.ring.head] == c
  }

  /** What the consumer may rely on: tail is its own and the handler only adds. */
  predicate ConsumerOk(s: System)
    requires s.ring.Valid()
  {
    match s.consumer
    case Waiting => true
    case Testing(h, t, u) =>
      && (t.Some? ==> t.value == s.ring.tail)
      && (h.Some? ==> h.value < 16 && u == Distance(s.ring.tail, h.value) && u <= s.ring.Unread())
    case Fetching => s.ring.Unread() > 0
    case Advancing(v) => s.ring.Unread() > 0 && s.ring.buf[s.ring.tail] == v
  }

  predicate Inv(s: System) {
    && s.ring.Valid() && ProducerOk(s) && ConsumerOk(s)
    && s.accepted == s.delivered + s.ring.Content()
    && (forall i :: 0 <= i < |s.drops| ==> s.drops[i] == 15)
    && (forall i :: 0 <= i < |s.misses| ==> s.misses[i] == 0)
  }

  lemma PublishStep(s: System)
    requires Inv(s) && s.producer.Publishing?
    ensures Inv(Apply(s, PushPublishes))
  {
    var r, c := s.ring, s.producer.c;
    StoreThenPublish(r, c);
    assert r.buf[r.head := c] == r.buf;
    assert s.accepted + [c] == s.delivered + (r.Content() + [c]);
  }

  lemma StoreStep(s: System)
    requires Inv(s) && s.producer.Storing?
    ensures Inv(Apply(s, PushStores))
  {
    StoreThenPublish(s.ring, s.producer.c);
  }

  lemma AdvanceStep(s: System)
    requires Inv(s) && s.consumer.Advancing?
    ensures Inv(Apply(s, PopAdvances))
  {
    AdvanceDropsFirst(s.ring);
    assert s.delivered + s.ring.Content() == s.delivered + [s.consumer.v] + s.ring.Content()[1..];
  }

  lemma DecisionStep(s: System)
    requires Inv(s) && Enabled(s, PushDecides)
    ensures Inv(Apply(s, PushDecides))
  {
    var p := s.producer;
    assert (p.headSeen.value + 1) % 16 == p.tailSeen.value <==> p.unread == 15;
  }

  lemma TestStep(s: System)
    requires Inv(s) && Enabled(s, PopDecides)
    ensures Inv(Apply(s, PopDecides))
  {
    var c := s.consumer;
    assert c.headSeen.value == c.tailSeen.value <==> c.unread == 0;
  }

  lemma StepKeepsInv(s: System, e: Step)
    requires Inv(s) && Enabled(s, e)
    ensures Inv(Apply(s, e))
  {
    match e
    case PushPublishes => PublishStep(s);
    case PushStores => StoreStep(s);
    case PopAdvances => AdvanceStep(s);
    case PushDecides => DecisionStep(s);
    case PopDecides => TestStep(s);
    case PopFetches =>
    case CallPop =>
    case Interrupt(_) =>
    case PushReadsHead =>
    case PushReadsTail =>
    case PopReadsHead =>
    case PopReadsTail =>
  }

  predicate EnabledRun(s: System, es: seq<Step>)
    requires Inv(s)
    decreases |es|
  {
    es == [] || (Enabled(s, es[0]) && (StepKeepsInv(s, es[0]); EnabledRun(Apply(s, es[0]), es[1..])))
  }

  function Run(s: System, es: seq<Step>): System
    requires Inv(s) && EnabledRun(s, es)
    decreases |es|
  {
    if es == [] then s else (StepKeepsInv(s, es[0]); Run(Apply(s, es[0]), es[1..]))
  }

  function Start(r: RingBuf): System
    requires r.Valid()
  {
    System(r, Idle, Waiting, r.Content(), [], [], [])
  }

  /** Under every interleaving of the individual reads and writes: the delivered bytes are the oldest
      accepted bytes, in order, once each; the rest is exactly the content of the ring, at most 15; a
      byte is dropped only if 15 were unread when its full check read tail, and a pop fails only if
      none was unread when its empty check read head. */
  lemma {:induction false} InterleavedRunIsSafe(s: System, es: seq<Step>)
    requires Inv(s) && EnabledRun(s, es)
    ensures var r := Run(s, es);
            && Inv(r) && r.delivered <= r.accepted
            && r.accepted[|r.delivered|..] == r.ring.Content() && |r.ring.Content()| <= 15
            && (forall i :: 0 <= i < |r.drops| ==> r.drops[i] == 15)
            && (forall i :: 0 <= i < |r.misses| ==> r.misses[i] == 0)
    decreases |es|
  {
    if es != [] {
      StepKeepsInv(s, es[0]);
      InterleavedRunIsSafe(Apply(s, es[0]), es[1..]);
    }
  }

  function Interrupts(es: seq<Step>): nat {
    if es == [] then 0 else (if es[0].Interrupt? then 1 else 0) + Interrupts(es[1..])
  }

  function Calls(es: seq<Step>): nat {
    if es == [] then 0 else (if es[0].CallPop? then 1 else 0) + Calls(es[1..])
  }

  lemma StepAccountedFor(s: System, e: Step)
    requires Inv(s) && Enabled(s, e)
    ensures var r := Apply(s, e);
            && |r.accepted| + |r.drops| + (if r.producer.Idle? then 0 else 1)
               == |s.accepted| + |s.drops| + (if s.producer.Idle? then 0 else 1) + (if e.Interrupt? then 1 else 0)
            && |r.delivered| + |r.misses| + (if r.consumer.Waiting? then 0 else 1)
               == |s.delivered| + |s.misses| + (if s.consumer.Waiting? then 0 else 1) + (if e.CallPop? then 1 else 0)
  {
  }

  /** Nothing gets lost on the way: every byte the keyboard delivers is accepted, dropped or still in the
      push at hand, and every pop has delivered, failed or is still at work. */
  lemma {:induction false} EveryStepAccountedFor(s: System, es: seq<Step>)
    requires Inv(s) && EnabledRun(s, es)
    ensures var r := Run(s, es);
            && |r.accepted| + |r.drops| + (if r.producer.Idle? then 0 else 1)
               == |s.accepted| + |s.drops| + (if s.producer.Idle? then 0 else 1) + Interrupts(es)
            && |r.delivered| + |r.misses| + (if r.consumer.Waiting? then 0 else 1)
               == |s.delivered| + |s.misses| + (if s.consumer.Waiting? then 0 else 1) + Calls(es)
    decreases |es|
  {
    if es != [] {
      StepKeepsInv(s, es[0]);
      StepAccountedFor(s, es[0]);
      EveryStepAccountedFor(Apply(s, es[0]), es[1..]);
    }
  }

  lemma StartIsSafe(r: RingBuf)
    requires r.Valid()
    ensures Inv(Start(r))
  {
  }

  /** A push that nothing interrupts is the sequential push. */
  lemma UninterruptedPush(s: System, c: Byte)
    requires Inv(s) && s.producer.Idle?
    ensures var s3 := Apply(Apply(Apply(s, Interrupt(c)), PushReadsHead), PushReadsTail);
            var s4 := Apply(s3, PushDecides);
            if s4.producer.Idle? then s4.ring == Pushed(s.ring, c) && s4.accepted == s.accepted
            else
              var s6 := Apply(Apply(s4, PushStores), PushPublishes);
              s6.ring == Pushed(s.ring, c) && s6.accepted == s.accepted + [c]
  {
  }

  /** A pop that nothing interrupts is the sequential pop. */
  lemma UninterruptedPop(s: System)
    requires Inv(s) && s.consumer.Waiting?
    ensures var s3 := Apply(Apply(Apply(s, CallPop), PopReadsHead), PopReadsTail);
            var s4 := Apply(s3, PopDecides);
            if s4.consumer.Waiting? then Popped(s.ring) == (s4.ring, None) && s4.delivered == s.delivered
            else
              var s5 := Apply(s4, PopFetches);
              var s6 := Apply(s5, PopAdvances);
              Popped(s.ring) == (s6.ring, Some(s5.consumer.v)) && s6.delivered == s.delivered + [s5.consumer.v]
  {
  }
}
