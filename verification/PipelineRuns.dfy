/** Whole runs of the streaming pipeline: every interleaving of the two threads. */
module PipelineRuns {
  import opened Bits
  import opened Documents
  import opened Exporter
  import opened Reconstruct
  import opened Pipeline

  /** A run is a sequence of steps, each enabled in the state the previous ones lead to. */
  ghost predicate IsRun(docs: seq<Document>, q: Criterion, steps: seq<Step>)
    decreases |steps|, 0
  {
    steps == [] ||
    (var init := steps[..|steps| - 1];
     && IsRun(docs, q, init)
     && Shape(After(docs, q, init))
     && Enabled(docs, After(docs, q, init), steps[|steps| - 1]))
  }

  ghost function After(docs: seq<Document>, q: Criterion, steps: seq<Step>): State
    requires IsRun(docs, q, steps)
    decreases |steps|, 1
  {
    if steps == [] then Init()
    else Do(docs, q, After(docs, q, steps[..|steps| - 1]), steps[|steps| - 1])
  }

  lemma InitInv(docs: seq<Document>, q: Criterion)
    ensures Inv(docs, q, Init())
  {
    assert docs[..0] == [];
    assert Init().current.Rows() == [];
  }

  /** Every reachable state satisfies the invariant. */
  lemma {:induction false} RunInv(docs: seq<Document>, q: Criterion, steps: seq<Step>)
    requires IsRun(docs, q, steps)
    ensures Inv(docs, q, After(docs, q, steps))
  {
    if steps == [] {
      InitInv(docs, q);
    } else {
      var init := steps[..|steps| - 1];
      RunInv(docs, q, init);
      StepKeepsInv(docs, q, After(docs, q, init), steps[|steps| - 1]);
    }
  }

  /** Any enabled step extends a run: no reachable state is outside the domain of the steps. */
  lemma RunExtends(docs: seq<Document>, q: Criterion, steps: seq<Step>, step: Step)
    requires IsRun(docs, q, steps) && Enabled(docs, After(docs, q, steps), step)
    ensures IsRun(docs, q, steps + [step])
    ensures Shape(After(docs, q, steps))
    ensures After(docs, q, steps + [step]) == Do(docs, q, After(docs, q, steps), step)
  {
    RunInv(docs, q, steps);
    assert (steps + [step])[..|steps|] == steps;
  }

  /** The returned count is the number of matching rows: of the whole stream, or, when the
      parser threw, of the rows that had filled a chunk by then. */
  lemma RunQueryCorrect(docs: seq<Document>, q: Criterion, steps: seq<Step>)
    requires IsRun(docs, q, steps)
    ensures var s := After(docs, q, steps);
            s.producer.Returned? ==>
              && s.next <= |docs|
              && s.producer.result ==
                 Count(if s.failed then WholeBlocks(RowsOf(docs[..s.next])) else RowsOf(docs), q)
  {
    RunInv(docs, q, steps);
    var s := After(docs, q, steps);
    if s.producer.Returned? {
      assert s.pushed == s.popped;
    }
  }

  /** The parser-failure step is the only way `failed` is set. */
  lemma {:induction false} FailedOnlyByParser(docs: seq<Document>, q: Criterion, steps: seq<Step>)
    requires IsRun(docs, q, steps) && ParserFails !in steps
    ensures !After(docs, q, steps).failed
  {
    if steps != [] {
      var init := steps[..|steps| - 1];
      FailedOnlyByParser(docs, q, init);
    }
  }

  /** The consumer leaves its loop only after the producer has signalled completion
      and everything ever pushed has been popped, in the order it was pushed. */
  lemma ConsumerLeavesDrained(docs: seq<Document>, q: Criterion, steps: seq<Step>)
    requires IsRun(docs, q, steps)
    ensures var s := After(docs, q, steps);
            s.consumer.Publishing? || s.consumer.Exited? ==> s.popped == s.pushed && s.complete
  {
    RunInv(docs, q, steps);
  }

  /** The consumer's next step, when it has one. */
  function ConsumerStep(c: Consumer): Step {
    match c
    case Checking => TryPop
    case AwaitingData(_) => ConsumerWakes
    case Executing(_) => Execute
    case Publishing => Publish
    case Exited => Join
  }

  /** No reachable state is stuck: until the query returns, some thread can move
      without the help of a spurious wakeup. */
  lemma NeverStuck(docs: seq<Document>, q: Criterion, steps: seq<Step>) returns (step: Step)
    requires IsRun(docs, q, steps) && !After(docs, q, steps).producer.Returned?
    ensures !Spurious(step) && Enabled(docs, After(docs, q, steps), step)
  {
    RunInv(docs, q, steps);
    var s := After(docs, q, steps);
    step := match s.producer
            case Parsing => if s.next < |docs| then ParseDocument else FinishParsing
            case Pushing(_) => TryPush
            case Signalling => Signal
            case AwaitingSpace(_, notified) => if notified then ProducerWakes else ConsumerStep(s.consumer)
            case _ => ConsumerStep(s.consumer);
  }

  function ProducerRank(p: Producer): nat {
    match p
    case Parsing => 13
    case Pushing(last) => if last then 11 else 20
    case AwaitingSpace(last, notified) => (if last then 10 else 19) + if notified then 2 else 0
    case Signalling => 4
    case Joining => 1
    case Returned(_) => 0
  }

  function ConsumerRank(c: Consumer): nat {
    match c
    case Checking => 3
    case AwaitingData(notified) => if notified then 4 else 2
    case Executing(_) => 4
    case Publishing => 1
    case Exited => 0
  }

  ghost function Measure(docs: seq<Document>, s: State): nat
    requires s.next <= |docs|
  {
    8 * (|docs| - s.next) + ProducerRank(s.producer) + 4 * s.ring.size + ConsumerRank(s.consumer)
  }

  lemma ParseProgress(docs: seq<Document>, s: State)
    requires Shape(s) && s.next < |docs| && s.producer.Parsing?
    ensures Measure(docs, Parse(docs, s)) < Measure(docs, s)
  {
  }

  lemma PushProgress(docs: seq<Document>, s: State)
    requires Shape(s) && s.next <= |docs| && s.producer.Pushing?
    ensures Measure(docs, Push(s)) < Measure(docs, s)
  {
  }

  lemma PopProgress(docs: seq<Document>, s: State)
    requires Shape(s) && s.next <= |docs| && s.consumer.Checking?
    ensures Measure(docs, Pop(s)) < Measure(docs, s)
  {
  }

  /** Every step but a spurious wakeup makes progress, and a spurious one costs a single unit. */
  lemma StepProgress(docs: seq<Document>, q: Criterion, s: State, step: Step)
    requires Shape(s) && s.next <= |docs| && Enabled(docs, s, step)
    ensures var s' := Do(docs, q, s, step);
            && s'.next <= |docs|
            && (!Spurious(step) ==> Measure(docs, s') < Measure(docs, s))
            && (Spurious(step) ==> Measure(docs, s') == Measure(docs, s) + 1)
  {
    match step
    case ParseDocument => ParseProgress(docs, s);
    case TryPush => PushProgress(docs, s);
    case TryPop => PopProgress(docs, s);
    case _ =>
  }

  function SpuriousCount(steps: seq<Step>): nat {
    if steps == [] then 0
    else SpuriousCount(steps[..|steps| - 1]) + Digit(Spurious(steps[|steps| - 1]))
  }

  /** Runs are bounded: linear in the documents plus two steps per spurious wakeup. */
  lemma {:induction false} RunsTerminate(docs: seq<Document>, q: Criterion, steps: seq<Step>)
    requires IsRun(docs, q, steps)
    ensures After(docs, q, steps).next <= |docs|
    ensures |steps| + Measure(docs, After(docs, q, steps)) <= 8 * |docs| + 16 + 2 * SpuriousCount(steps)
  {
    if steps != [] {
      var init := steps[..|steps| - 1];
      RunsTerminate(docs, q, init);
      RunInv(docs, q, init);
      StepProgress(docs, q, After(docs, q, init), steps[|steps| - 1]);
    }
  }

  /** A run that can be extended only by spurious wakeups has returned the right answer. */
  lemma MaximalRunsReturn(docs: seq<Document>, q: Criterion, steps: seq<Step>)
    requires IsRun(docs, q, steps) && ParserFails !in steps
    requires forall step :: Enabled(docs, After(docs, q, steps), step) ==> Spurious(step)
    ensures After(docs, q, steps).producer == Returned(Count(RowsOf(docs), q))
  {
    if !After(docs, q, steps).producer.Returned? {
      var step := NeverStuck(docs, q, steps);
    }
    RunQueryCorrect(docs, q, steps);
    FailedOnlyByParser(docs, q, steps);
  }

  /** The two query paths of the service: text is streamed and compared on whole fields, an export is
      counted on the low `width` bits, which are 8. They agree when no document is ambiguous. */
  lemma StreamAgreesWithExport(docs: seq<Document>, width: nat, s: u64, t: u64, steps: seq<Step>, agb: seq<u64>, idx: seq<u64>)
    requires IsRun(docs, Exact(s, t), steps) && ParserFails !in steps && After(docs, Exact(s, t), steps).producer.Returned?
    requires Encodes(Records(docs), agb, idx) && AllUnambiguous(docs, width, s, t)
    ensures After(docs, Exact(s, t), steps).producer.result == Count(FieldsOf(FileRows(agb, idx)), Truncated(width, s, t))
  {
    RunQueryCorrect(docs, Exact(s, t), steps);
    FailedOnlyByParser(docs, Exact(s, t), steps);
    FileCountIsRecordCount(Records(docs), agb, idx, Truncated(width, s, t));
    UnambiguousCountsAgree(docs, width, s, t, |docs|);
    assert docs[..|docs|] == docs;
  }

  lemma CountOfOne(docs: seq<Document>, c: Criterion)
    requires |docs| == 1 && docs[0].Document?
    ensures Count(RowsOf(docs), c) == Digit(c.Accepts(Row(OrZero(docs[0].status), OrZero(docs[0].latency))))
  {
    CountsStep(docs, 0, c);
    assert docs[..0] == [] && docs[..1] == docs;
  }

  lemma AliasAccepted()
    ensures Truncated(8, 200, 100).Accepts(Row(456, 150)) && !Exact(200, 100).Accepts(Row(456, 150))
  {
    Pow2Values();
    TruncIsMod(456, 8);
    TruncIsMod(150, 8);
  }

  /** One document on which they do not: the stream counts 0 and the export 1. */
  lemma PathsDisagree(docs: seq<Document>, offset: u64, steps: seq<Step>, agb: seq<u64>, idx: seq<u64>)
    requires docs == [Document(Some(456), Some(150), offset)]
    requires IsRun(docs, Exact(200, 100), steps) && ParserFails !in steps
    requires After(docs, Exact(200, 100), steps).producer.Returned? && Encodes(Records(docs), agb, idx)
    ensures After(docs, Exact(200, 100), steps).producer.result == 0
    ensures Count(FieldsOf(FileRows(agb, idx)), Truncated(8, 200, 100)) == 1
  {
    RunQueryCorrect(docs, Exact(200, 100), steps);
    FailedOnlyByParser(docs, Exact(200, 100), steps);
    FileCountIsRecordCount(Records(docs), agb, idx, Truncated(8, 200, 100));
    CountOfOne(docs, Exact(200, 100));
    CountOfOne(docs, Truncated(8, 200, 100));
    AliasAccepted();
  }
}
