/** The streaming query pipeline: one parsing thread and one evaluating thread
    share a ring of 16 chunks under a mutex, with a condition variable each way
    and a completion flag. Each step below is one critical section, or one
    stretch of thread-local work between critical sections; a thread asleep on
    a condition variable carries whether it has been notified. */
module Pipeline {
  import opened Bits
  import opened Documents
  import opened RingBuffer

  const BLOCK := 64

  /** `count` rows of two columns; entries past `count` are left over or padding. */
  datatype Chunk = Chunk(status: seq<u64>, latency: seq<u64>, count: nat) {
    predicate Valid() { |status| == BLOCK && |latency| == BLOCK && count <= BLOCK }

    function Rows(): seq<Row>
      requires Valid()
    {
      seq(count, i requires 0 <= i < count => Row(status[i], latency[i]))
    }
  }

  ghost predicate AllValid(chunks: seq<Chunk>) {
    forall k | 0 <= k < |chunks| :: chunks[k].Valid()
  }

  function Flatten(chunks: seq<Chunk>): seq<Row>
    requires AllValid(chunks)
  {
    if chunks == [] then [] else Flatten(chunks[..|chunks| - 1]) + chunks[|chunks| - 1].Rows()
  }

  datatype Producer =
    | Parsing
    | Pushing(last: bool)                      // about to take the lock with a filled chunk
    | AwaitingSpace(last: bool, notified: bool)
    | Signalling
    | Joining
    | Returned(result: nat)

  datatype Consumer =
    | Checking                                 // about to take the lock and test the queue
    | AwaitingData(notified: bool)
    | Executing(chunk: Chunk)
    | Publishing
    | Exited

  /** `pushed`, `popped` and `failed` record history; nothing in the program reads them. */
  datatype State = State(
    next: nat, current: Chunk, producer: Producer, consumer: Consumer,
    ring: Ring<Chunk>, complete: bool,
    batch: seq<Row>, processed: nat, matchCount: nat,
    pushed: seq<Chunk>, popped: seq<Chunk>, failed: bool)

  const ZEROS: seq<u64> := seq(BLOCK, _ => 0)

  function Init(): State {
    var empty := Chunk(ZEROS, ZEROS, 0);
    State(0, empty, Parsing, Checking, Ring(seq(CAPACITY, _ => empty), 0, 0, 0), false,
          seq(BLOCK, _ => Row(0, 0)), 0, 0, [], [], false)
  }

  datatype Step =
    | ParseDocument | ParserFails | FinishParsing | TryPush | ProducerWakes | Signal | Join
    | TryPop | ConsumerWakes | Execute | Publish
    | ProducerSpurious | ConsumerSpurious

  predicate Spurious(step: Step) { step.ProducerSpurious? || step.ConsumerSpurious? }

  predicate Enabled(docs: seq<Document>, s: State, step: Step) {
    match step
    case ParseDocument => s.producer.Parsing? && s.next < |docs|
    case ParserFails => s.producer.Parsing?
    case FinishParsing => s.producer.Parsing? && s.next == |docs|
    case TryPush => s.producer.Pushing?
    case ProducerWakes => s.producer.AwaitingSpace? && s.producer.notified
    case ProducerSpurious => s.producer.AwaitingSpace? && !s.producer.notified
    case Signal => s.producer.Signalling?
    case Join => s.producer.Joining? && s.consumer.Exited?
    case TryPop => s.consumer.Checking?
    case ConsumerWakes => s.consumer.AwaitingData? && s.consumer.notified
    case ConsumerSpurious => s.consumer.AwaitingData? && !s.consumer.notified
    case Execute => s.consumer.Executing?
    case Publish => s.consumer.Publishing?
  }

  /** Waking a thread that sleeps on a condition variable; a no-op otherwise. */
  function NotifyConsumer(c: Consumer): Consumer { if c.AwaitingData? then AwaitingData(true) else c }
  function NotifyProducer(p: Producer): Producer { if p.AwaitingSpace? then AwaitingSpace(p.last, true) else p }

  /** Buffers one document; a full buffer becomes a chunk to push. */
  function Parse(docs: seq<Document>, s: State): State
    requires s.next < |docs| && s.current.Valid() && s.current.count < BLOCK
  {
    var d := docs[s.next];
    var s' := s.(next := s.next + 1);
    if d.Broken? then s'
    else
      var n := s.current.count;
      var filled := Chunk(s.current.status[n := OrZero(d.status)], s.current.latency[n := OrZero(d.latency)], n + 1);
      s'.(current := filled, producer := if n + 1 == BLOCK then Pushing(false) else Parsing)
  }

  /** Zeroes every entry at or after `from`. */
  function ZeroFrom(col: seq<u64>, from: nat): seq<u64> {
    seq(|col|, i requires 0 <= i < |col| => if i < from then col[i] else 0)
  }

  /** The padding loop of the last partial chunk. */
  method PadColumns(status: array<u64>, latency: array<u64>, count: nat)
    requires status.Length == BLOCK && latency.Length == BLOCK && count <= BLOCK && status != latency
    modifies status, latency
    ensures status[..] == ZeroFrom(old(status[..]), count)
    ensures latency[..] == ZeroFrom(old(latency[..]), count)
  {
    for i := count to BLOCK
      invariant forall k | 0 <= k < BLOCK :: status[k] == if count <= k < i then 0 else old(status[k])
      invariant forall k | 0 <= k < BLOCK :: latency[k] == if count <= k < i then 0 else old(latency[k])
    {
      status[i], latency[i] := 0, 0;
    }
  }

  function Finish(s: State): State {
    if s.current.count > 0 then
      var c := s.current;
      s.(current := Chunk(ZeroFrom(c.status, c.count), ZeroFrom(c.latency, c.count), c.count), producer := Pushing(true))
    else s.(producer := Signalling)
  }

  /** The producer's critical section: wait while full, otherwise enqueue and notify. */
  function Push(s: State): State
    requires s.producer.Pushing? && s.ring.Valid()
  {
    if s.ring.size < CAPACITY then
      s.(ring := s.ring.Put(s.current), consumer := NotifyConsumer(s.consumer), pushed := s.pushed + [s.current],
         current := s.current.(count := 0), producer := if s.producer.last then Signalling else Parsing)
    else s.(producer := AwaitingSpace(s.producer.last, false))
  }

  /** The consumer's critical section: wait while empty and incomplete, leave
      when empty and complete, otherwise dequeue and notify. */
  function Pop(s: State): State
    requires s.ring.Valid()
  {
    if s.ring.size == 0 && !s.complete then s.(consumer := AwaitingData(false))
    else if s.ring.size == 0 then s.(consumer := Publishing)
    else
      s.(consumer := Executing(s.ring.slots[s.ring.tail]), ring := s.ring.Take(),
         producer := NotifyProducer(s.producer), popped := s.popped + [s.ring.slots[s.ring.tail]])
  }

  /** Overwrites the first `count` rows of the reused batch; the rest stay stale. */
  function Unpack(c: Chunk, batch: seq<Row>): seq<Row>
    requires c.Valid() && |batch| == BLOCK
  {
    seq(BLOCK, i requires 0 <= i < BLOCK => if i < c.count then Row(c.status[i], c.latency[i]) else batch[i])
  }

  /** The consumer's unpacking loop, in place on the reused batch. */
  method UnpackInto(c: Chunk, batch: array<Row>)
    requires c.Valid() && batch.Length == BLOCK
    modifies batch
    ensures batch[..] == Unpack(c, old(batch[..]))
  {
    var r := 0;
    while r < c.count
      invariant 0 <= r <= c.count
      invariant forall i | 0 <= i < r :: batch[i] == Row(c.status[i], c.latency[i])
      invariant forall i | r <= i < BLOCK :: batch[i] == old(batch[i])
    {
      batch[r] := Row(c.status[r], c.latency[r]);
      r := r + 1;
    }
  }

  /** Evaluates one chunk: the kernel counts matches among the first `count` rows of the batch. */
  function Evaluate(q: Criterion, s: State): State
    requires s.consumer.Executing? && s.consumer.chunk.Valid() && |s.batch| == BLOCK
  {
    var batch := Unpack(s.consumer.chunk, s.batch);
    s.(batch := batch, processed := s.processed + Count(batch[..s.consumer.chunk.count], q), consumer := Checking)
  }

  /** The shape every state keeps, under which each step is defined. */
  ghost predicate Shape(s: State) {
    && s.current.Valid() && s.ring.Valid() && AllValid(s.ring.slots) && |s.batch| == BLOCK
    && (s.consumer.Executing? ==> s.consumer.chunk.Valid())
    && (s.producer.Parsing? ==> s.current.count < BLOCK)
  }

  ghost function Do(docs: seq<Document>, q: Criterion, s: State, step: Step): State
    requires Shape(s) && Enabled(docs, s, step)
  {
    match step
    case ParseDocument => Parse(docs, s)
    case ParserFails => s.(producer := Signalling, failed := true)
    case FinishParsing => Finish(s)
    case TryPush => Push(s)
    case ProducerWakes => s.(producer := Pushing(s.producer.last))
    case ProducerSpurious => s.(producer := Pushing(s.producer.last))
    case Signal => s.(complete := true, consumer := NotifyConsumer(s.consumer), producer := Joining)
    case Join => s.(producer := Returned(s.matchCount))
    case TryPop => Pop(s)
    case ConsumerWakes => s.(consumer := Checking)
    case ConsumerSpurious => s.(consumer := Checking)
    case Execute => Evaluate(q, s)
    case Publish => s.(matchCount := s.matchCount + s.processed, consumer := Exited)
  }

  /** No chunk is lost, repeated or reordered. */
  ghost predicate RingInv(s: State)
    requires Shape(s)
  {
    s.pushed == s.popped + s.ring.Contents()
  }

  /** No wakeup is lost: whoever sleeps un-notified has a reason to. */
  ghost predicate WakeInv(s: State) {
    && (s.consumer == AwaitingData(false) ==> s.ring.size == 0 && !s.complete)
    && (s.producer.AwaitingSpace? && !s.producer.notified ==> s.ring.size == CAPACITY)
    && (s.complete <==> s.producer.Joining? || s.producer.Returned?)
    && (s.consumer.Publishing? || s.consumer.Exited? ==> s.complete && s.ring.size == 0)
  }

  predicate Buffering(p: Producer) { p.Parsing? || p.Pushing? || p.AwaitingSpace? }

  predicate PushesLast(p: Producer) { (p.Pushing? || p.AwaitingSpace?) && p.last }

  /** What has been parsed is what was pushed followed by what is buffered. */
  ghost predicate StreamInv(docs: seq<Document>, s: State)
    requires Shape(s)
  {
    && s.next <= |docs|
    && AllValid(s.pushed)
    && (Buffering(s.producer) ==> !s.failed && RowsOf(docs[..s.next]) == Flatten(s.pushed) + s.current.Rows())
    && (Buffering(s.producer) ==> |Flatten(s.pushed)| % BLOCK == 0)
    && ((s.producer.Pushing? || s.producer.AwaitingSpace?) && !PushesLast(s.producer) ==> s.current.count == BLOCK)
    && (PushesLast(s.producer) ==> s.next == |docs|)
    && (!Buffering(s.producer) && !s.failed ==> Flatten(s.pushed) == RowsOf(docs))
    && (!Buffering(s.producer) && s.failed ==> Flatten(s.pushed) == WholeBlocks(RowsOf(docs[..s.next])))
  }

  /** The rows that had reached a full chunk. */
  function WholeBlocks(rows: seq<Row>): seq<Row> { rows[..|rows| - |rows| % 64] }

  /** The running total counts exactly the chunks already evaluated. */
  ghost predicate CountInv(q: Criterion, s: State) {
    && AllValid(s.popped)
    && (s.consumer.Executing? ==>
          |s.popped| > 0 && s.consumer.chunk == s.popped[|s.popped| - 1]
          && s.processed == Count(Flatten(s.popped[..|s.popped| - 1]), q))
    && (!s.consumer.Executing? ==> s.processed == Count(Flatten(s.popped), q))
    && s.matchCount == (if s.consumer.Exited? then s.processed else 0)
    && (s.producer.Returned? ==> s.consumer.Exited? && s.producer.result == s.matchCount)
  }

  ghost predicate Inv(docs: seq<Document>, q: Criterion, s: State) {
    Shape(s) && RingInv(s) && WakeInv(s) && StreamInv(docs, s) && CountInv(q, s)
  }

  lemma StepKeepsShape(docs: seq<Document>, q: Criterion, s: State, step: Step)
    requires Inv(docs, q, s) && Enabled(docs, s, step)
    ensures Shape(Do(docs, q, s, step))
  {
    if step.TryPush? && s.ring.size < CAPACITY {
      s.ring.PutAppends(s.current);
    } else if step.TryPop? && s.ring.size > 0 {
      s.ring.TakeDropsOldest();
    }
  }

  lemma PushKeepsRing(s: State)
    requires Shape(s) && RingInv(s) && s.producer.Pushing?
    ensures Push(s).ring.Valid() && Push(s).pushed == Push(s).popped + Push(s).ring.Contents()
  {
    if s.ring.size < CAPACITY {
      s.ring.PutAppends(s.current);
    }
  }

  lemma PopKeepsRing(s: State)
    requires Shape(s) && RingInv(s)
    ensures Pop(s).ring.Valid() && Pop(s).pushed == Pop(s).popped + Pop(s).ring.Contents()
  {
    if s.ring.size > 0 {
      s.ring.TakeDropsOldest();
    }
  }

  lemma StepKeepsRing(docs: seq<Document>, q: Criterion, s: State, step: Step)
    requires Inv(docs, q, s) && Enabled(docs, s, step)
    ensures Shape(Do(docs, q, s, step)) && RingInv(Do(docs, q, s, step))
  {
    StepKeepsShape(docs, q, s, step);
    if step.TryPush? {
      PushKeepsRing(s);
    } else if step.TryPop? {
      PopKeepsRing(s);
    }
  }

  lemma StepKeepsWake(docs: seq<Document>, q: Criterion, s: State, step: Step)
    requires Inv(docs, q, s) && Enabled(docs, s, step)
    ensures WakeInv(Do(docs, q, s, step))
  {
  }

  lemma FlattenSnoc(chunks: seq<Chunk>, c: Chunk)
    requires AllValid(chunks) && c.Valid()
    ensures AllValid(chunks + [c]) && Flatten(chunks + [c]) == Flatten(chunks) + c.Rows()
  {
    assert (chunks + [c])[..|chunks|] == chunks;
  }

  lemma ParseKeepsStream(docs: seq<Document>, s: State)
    requires Shape(s) && StreamInv(docs, s) && s.producer.Parsing? && s.next < |docs|
    ensures Shape(Parse(docs, s)) && StreamInv(docs, Parse(docs, s))
  {
    RowsOfSnoc(docs, s.next);
    var s', d := Parse(docs, s), docs[s.next];
    if !d.Broken? {
      assert s'.current.Rows() == s.current.Rows() + [Row(OrZero(d.status), OrZero(d.latency))];
    }
  }

  lemma PushKeepsStream(docs: seq<Document>, s: State)
    requires Shape(s) && StreamInv(docs, s) && s.producer.Pushing?
    ensures Shape(Push(s)) && StreamInv(docs, Push(s))
  {
    if s.ring.size < CAPACITY {
      FlattenSnoc(s.pushed, s.current);
      assert docs[..|docs|] == docs;
    }
  }

  lemma FinishKeepsStream(docs: seq<Document>, s: State)
    requires Shape(s) && StreamInv(docs, s) && s.producer.Parsing? && s.next == |docs|
    ensures Shape(Finish(s)) && StreamInv(docs, Finish(s))
  {
    assert docs[..|docs|] == docs;
    if s.current.count > 0 {
      assert Finish(s).current.Rows() == s.current.Rows();
    }
  }

  lemma FailKeepsStream(docs: seq<Document>, s: State)
    requires Shape(s) && StreamInv(docs, s) && s.producer.Parsing?
    ensures StreamInv(docs, s.(producer := Signalling, failed := true))
  {
    var rows := RowsOf(docs[..s.next]);
    assert |rows| % BLOCK == s.current.count;
    assert WholeBlocks(rows) == Flatten(s.pushed);
  }

  /** Steps outside the producer's buffering leave its stream alone. */
  lemma StreamFrame(docs: seq<Document>, s: State, s': State)
    requires Shape(s) && Shape(s') && StreamInv(docs, s)
    requires s'.next == s.next && s'.current == s.current && s'.pushed == s.pushed && s'.failed == s.failed
    requires Buffering(s'.producer) == Buffering(s.producer) && PushesLast(s'.producer) == PushesLast(s.producer)
    requires s'.producer.Parsing? == s.producer.Parsing?
    ensures StreamInv(docs, s')
  {
  }

  lemma StepKeepsStream(docs: seq<Document>, q: Criterion, s: State, step: Step)
    requires Inv(docs, q, s) && Enabled(docs, s, step)
    ensures Shape(Do(docs, q, s, step)) && StreamInv(docs, Do(docs, q, s, step))
  {
    StepKeepsShape(docs, q, s, step);
    match step
    case ParseDocument => ParseKeepsStream(docs, s);
    case FinishParsing => FinishKeepsStream(docs, s);
    case TryPush => PushKeepsStream(docs, s);
    case ParserFails => FailKeepsStream(docs, s);
    case _ => StreamFrame(docs, s, Do(docs, q, s, step));
  }

  lemma ExecuteCountsChunk(q: Criterion, s: State)
    requires Shape(s) && CountInv(q, s) && s.consumer.Executing?
    ensures CountInv(q, Evaluate(q, s))
  {
    var c := s.consumer.chunk;
    assert Unpack(c, s.batch)[..c.count] == c.Rows();
    var init := s.popped[..|s.popped| - 1];
    assert s.popped == init + [c];
    FlattenSnoc(init, c);
    CountConcat(Flatten(init), c.Rows(), q);
  }

  /** Steps that neither pop, evaluate nor publish leave the counts alone. */
  lemma CountFrame(q: Criterion, s: State, s': State)
    requires CountInv(q, s)
    requires s'.popped == s.popped && s'.processed == s.processed && s'.matchCount == s.matchCount
    requires s.consumer.Executing? || s.consumer.Exited? || s'.consumer.Executing? || s'.consumer.Exited? ==>
               s'.consumer == s.consumer
    requires s'.producer.Returned? ==> s'.consumer.Exited? && s'.producer.result == s'.matchCount
    ensures CountInv(q, s')
  {
  }

  lemma StepKeepsCount(docs: seq<Document>, q: Criterion, s: State, step: Step)
    requires Inv(docs, q, s) && Enabled(docs, s, step)
    ensures CountInv(q, Do(docs, q, s, step))
  {
    var s' := Do(docs, q, s, step);
    match step
    case Execute => ExecuteCountsChunk(q, s);
    case Publish =>
    case TryPop =>
      if s.ring.size > 0 {
        assert s'.popped[..|s'.popped| - 1] == s.popped;
      } else {
        CountFrame(q, s, s');
      }
    case _ => CountFrame(q, s, s');
  }

  lemma StepKeepsInv(docs: seq<Document>, q: Criterion, s: State, step: Step)
    requires Inv(docs, q, s) && Enabled(docs, s, step)
    ensures Inv(docs, q, Do(docs, q, s, step))
  {
    StepKeepsRing(docs, q, s, step);
    StepKeepsWake(docs, q, s, step);
    StepKeepsStream(docs, q, s, step);
    StepKeepsCount(docs, q, s, step);
  }
}
