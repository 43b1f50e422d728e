/** Staging and commit as an interleaving of steps: any number of appending
    threads, one transcoding worker, one write-ahead log, one depth counter. */
module Staging {
  import opened Bits
  import opened PlaneMemory
  import opened Storage
  import opened Ingest
  import opened Lines
  import opened Wal

  /** The parser and the filter hash the ingester runs with. */
  datatype Env = Env(parse: string -> Doc, hash: Hash)

  /** A batch's life: written to the log, added to the depth counter, returned to the
      caller, and finally replaced by the group it was transcoded into. */
  datatype Phase = Logged | Counted | Acknowledged | Compacted(group: Group)

  datatype Batch = Batch(lines: seq<string>, phase: Phase)

  /** Where the worker is in committing batch `id`. */
  datatype Worker = Idle | Transcoding(id: nat) | Swapped(id: nat) | Subtracted(id: nat)

  /** `logged` is the history of the log since its last truncation; the program keeps only `wal`. */
  datatype State = State(batches: seq<Batch>, wal: string, depth: u64, worker: Worker, logged: seq<string>)

  function Init(): State { State([], "", 0, Idle, []) }

  /** `ok` says whether the log file could be opened. */
  datatype Step =
    | Log(lines: seq<string>, ok: bool) | Count(id: nat) | Acknowledge(id: nat)
    | Load(id: nat) | Swap(group: Group) | Subtract | Truncate(ok: bool)

  /** `g` is what transcoding makes of `lines`. */
  ghost predicate IsTranscoding(env: Env, lines: seq<string>, g: Group) {
    Transcoded(env.hash, BatchRows(env.parse, lines), g)
  }

  ghost predicate Enabled(env: Env, s: State, step: Step) {
    match step
    case Log(_, _) => true
    case Count(id) => id < |s.batches| && s.batches[id].phase == Logged
    case Acknowledge(id) => id < |s.batches| && s.batches[id].phase == Counted
    case Load(id) => id < |s.batches| && s.worker.Idle? && (s.batches[id].phase.Acknowledged? || s.batches[id].phase.Compacted?)
    case Swap(g) => s.worker.Transcoding? && s.worker.id < |s.batches| && IsTranscoding(env, s.batches[s.worker.id].lines, g)
    case Subtract => s.worker.Swapped? && s.worker.id < |s.batches|
    case Truncate(_) => s.worker.Subtracted?
  }

  function SetPhase(s: State, id: nat, p: Phase): State
    requires id < |s.batches|
  {
    s.(batches := s.batches[id := s.batches[id].(phase := p)])
  }

  ghost function Do(env: Env, s: State, step: Step): State
    requires Enabled(env, s, step)
  {
    match step
    case Log(lines, ok) =>
      var s' := s.(batches := s.batches + [Batch(lines, Logged)]);
      if ok then s'.(wal := s.wal + Serialize(lines), logged := s.logged + lines) else s'
    case Count(id) => SetPhase(s, id, Counted).(depth := WrapAdd(s.depth, |s.batches[id].lines|))
    case Acknowledge(id) => SetPhase(s, id, Acknowledged)
    case Load(id) => if s.batches[id].phase.Compacted? then s else s.(worker := Transcoding(id))
    case Swap(g) => SetPhase(s, s.worker.id, Compacted(g)).(worker := Swapped(s.worker.id))
    case Subtract =>
      s.(worker := Subtracted(s.worker.id), depth := WrapSub(s.depth, |s.batches[s.worker.id].lines|))
    case Truncate(ok) => if ok then s.(worker := Idle, wal := "", logged := []) else s.(worker := Idle)
  }

  /** Lines of a batch that the depth counter covers. */
  function Covered(b: Batch): nat { if b.phase.Counted? || b.phase.Acknowledged? then |b.lines| else 0 }

  function Total(batches: seq<Batch>): nat {
    if batches == [] then 0 else Total(batches[..|batches| - 1]) + Covered(batches[|batches| - 1])
  }

  /** Counted lines not yet swapped, plus lines swapped but not yet subtracted. */
  function Outstanding(s: State): nat {
    Total(s.batches) + if s.worker.Swapped? && s.worker.id < |s.batches| then |s.batches[s.worker.id].lines| else 0
  }

  ghost predicate Inv(s: State) {
    && s.wal == Serialize(s.logged)
    && s.depth == Outstanding(s) % (ALL_ONES + 1)
    && WorkerInv(s)
  }

  /** The worker is on a batch of its own, in the phase its position says. */
  ghost predicate WorkerInv(s: State) {
    && (!s.worker.Idle? ==> s.worker.id < |s.batches|)
    && (s.worker.Transcoding? ==> s.batches[s.worker.id].phase == Acknowledged)
    && (s.worker.Swapped? || s.worker.Subtracted? ==> s.batches[s.worker.id].phase.Compacted?)
  }

  lemma {:induction false} TotalUpdate(batches: seq<Batch>, id: nat, b: Batch)
    requires id < |batches|
    ensures Total(batches[id := b]) == Total(batches) - Covered(batches[id]) + Covered(b)
  {
    var n := |batches| - 1;
    var after := batches[id := b];
    if id == n {
      assert after[..n] == batches[..n];
    } else {
      assert after[..n] == batches[..n][id := b];
      TotalUpdate(batches[..n], id, b);
    }
  }

  lemma OutstandingAfter(env: Env, s: State, step: Step)
    requires Inv(s) && Enabled(env, s, step) && !step.Log?
    ensures Outstanding(Do(env, s, step)) ==
            if step.Count? then Outstanding(s) + |s.batches[step.id].lines|
            else if step.Subtract? then Outstanding(s) - |s.batches[s.worker.id].lines|
            else Outstanding(s)
  {
    match step
    case Count(id) => TotalUpdate(s.batches, id, s.batches[id].(phase := Counted));
    case Acknowledge(id) => TotalUpdate(s.batches, id, s.batches[id].(phase := Acknowledged));
    case Swap(g) => TotalUpdate(s.batches, s.worker.id, s.batches[s.worker.id].(phase := Compacted(g)));
    case _ =>
  }

  lemma DepthAfter(env: Env, s: State, step: Step)
    requires Inv(s) && Enabled(env, s, step)
    ensures Do(env, s, step).depth == Outstanding(Do(env, s, step)) % (ALL_ONES + 1)
  {
    if step.Log? {
      assert Do(env, s, step).batches[..|s.batches|] == s.batches;
    } else {
      OutstandingAfter(env, s, step);
      if step.Count? {
        WrapTracks(Outstanding(s), |s.batches[step.id].lines|);
      } else if step.Subtract? {
        WrapTracks(Outstanding(s), |s.batches[s.worker.id].lines|);
      }
    }
  }

  lemma WorkerStep(env: Env, s: State, step: Step)
    requires WorkerInv(s) && Enabled(env, s, step)
    ensures WorkerInv(Do(env, s, step))
  {
  }

  lemma StepKeepsInv(env: Env, s: State, step: Step)
    requires Inv(s) && Enabled(env, s, step)
    ensures Inv(Do(env, s, step))
  {
    DepthAfter(env, s, step);
    WorkerStep(env, s, step);
    if step.Log? { SerializeConcat(s.logged, step.lines); }
  }

  /** Every line of the batch has its own row in the group, which decodes to its status and latency,
      and the recorded strings of the batch are the group's dictionary. */
  ghost predicate StoresLines(env: Env, lines: seq<string>, g: Group) {
    && IsPlanes(g.planes)
    && (forall k | 0 <= k < |lines| :: StoresLine(env, lines[k], g, k))
    && g.warm == Warms(BatchRows(env.parse, lines))
  }

  ghost predicate StoresLine(env: Env, line: string, g: Group, k: nat)
    requires IsPlanes(g.planes)
  {
    && k < ROWS
    && Decode(g.planes, 0, k) == StatusOf(env.parse(line))
    && Decode(g.planes, 1, k) == LatencyOf(env.parse(line))
  }

  /** A transcoding stores a batch exactly when the batch fits in a row group. */
  lemma TranscodingStoresIff(env: Env, lines: seq<string>, g: Group)
    requires IsTranscoding(env, lines, g)
    ensures StoresLines(env, lines, g) <==> |lines| <= 65536
  {
    if |lines| <= ROWS {
      forall k | 0 <= k < |lines| ensures StoresLine(env, lines[k], g, k) {
        TranscodedDecodes(env.hash, BatchRows(env.parse, lines), g, k);
      }
    } else {
      assert !StoresLine(env, lines[ROWS], g, ROWS);
    }
  }

  /** The batches still awaiting transcoding stand in the log whole, in order and without overlap:
      batch `id` starts at line `starts[id]`. */
  ghost predicate Placed(batches: seq<Batch>, log: seq<string>, starts: seq<nat>) {
    && |starts| == |batches|
    && (forall id | 0 <= id < |batches| && !batches[id].phase.Compacted? :: StandsAt(log, starts[id], batches[id].lines))
    && (forall id, jd | 0 <= id < jd < |batches| && !batches[id].phase.Compacted? && !batches[jd].phase.Compacted? ::
          starts[id] + |batches[id].lines| <= starts[jd])
  }

  ghost predicate StandsAt(log: seq<string>, start: nat, lines: seq<string>) {
    start + |lines| <= |log| && log[start..start + |lines|] == lines
  }

  ghost predicate Replayable(batches: seq<Batch>, log: seq<string>) {
    exists starts :: Placed(batches, log, starts)
  }

  ghost predicate Stored(env: Env, batches: seq<Batch>) {
    forall id | 0 <= id < |batches| && batches[id].phase.Compacted? ::
      StoresLines(env, batches[id].lines, batches[id].phase.group)
  }

  /** No line is lost: each batch is replayable from the log, or stored line by line in its group. */
  ghost predicate Durable(env: Env, s: State) {
    Replayable(s.batches, Recover(s.wal)) && Stored(env, s.batches)
  }

  predicate AllLoggable(lines: seq<string>) { forall k | 0 <= k < |lines| :: Loggable(lines[k]) }

  /** While the outstanding lines fit in the counter, the counter is exact and the subtraction cannot wrap. */
  lemma DepthExact(env: Env, s: State)
    requires Inv(s) && Outstanding(s) <= ALL_ONES
    ensures s.depth == Outstanding(s)
    ensures s.worker.Swapped? ==>
              && |s.batches[s.worker.id].lines| <= s.depth
              && Do(env, s, Subtract).depth == s.depth - |s.batches[s.worker.id].lines|
  {
  }

  /** Appending to the log keeps what stands in it and makes room for the new batch. */
  lemma LogPlaces(batches: seq<Batch>, log: seq<string>, starts: seq<nat>, lines: seq<string>)
    requires Placed(batches, log, starts)
    ensures Placed(batches + [Batch(lines, Logged)], log + lines, starts + [|log|])
  {
    var batches', log', starts' := batches + [Batch(lines, Logged)], log + lines, starts + [|log|];
    forall id | 0 <= id < |batches'| && !batches'[id].phase.Compacted?
      ensures StandsAt(log', starts'[id], batches'[id].lines)
    {
      if id < |batches| {
        assert StandsAt(log, starts[id], batches[id].lines);
      }
    }
  }

  lemma LogKeepsDurable(env: Env, s: State, lines: seq<string>)
    requires Inv(s) && Durable(env, s) && AllLoggable(s.logged) && AllLoggable(lines)
    ensures Durable(env, Do(env, s, Log(lines, true)))
  {
    SerializeConcat(s.logged, lines);
    WalRoundTripIff(s.logged);
    WalRoundTripIff(s.logged + lines);
    var starts :| Placed(s.batches, s.logged, starts);
    LogPlaces(s.batches, s.logged, starts, lines);
  }

  /** Fewer pending batches stand where they stood. */
  lemma PhaseKeepsPlaces(batches: seq<Batch>, log: seq<string>, id: nat, p: Phase)
    requires Replayable(batches, log) && id < |batches| && !batches[id].phase.Compacted?
    ensures Replayable(batches[id := batches[id].(phase := p)], log)
  {
    var starts :| Placed(batches, log, starts);
    assert Placed(batches[id := batches[id].(phase := p)], log, starts);
  }

  /** A log that holds exactly one appended batch replays a batch with those lines only if it is loggable. */
  lemma StandsIff(lines: seq<string>, start: nat)
    requires StandsAt(Recover(Serialize(lines)), start, lines)
    ensures lines == [] || AllLoggable(lines)
  {
    var log := Recover(Serialize(lines));
    forall k | 0 <= k < |lines| ensures '\n' !in lines[k] {
      RecoveredHaveNoNewlines(Serialize(lines));
      assert lines[k] == log[start..start + |lines|][k] == log[start + k];
    }
    RecoverSerialized(lines);
    CleanLength(lines);
    WalRoundTripIff(lines);
  }

  /** The next batch logged after everything else was committed: it is durable exactly when it is empty,
      or the log opened and every line is loggable. The program acknowledges it either way. */
  lemma LogDurableIff(env: Env, s: State, lines: seq<string>, ok: bool)
    requires Durable(env, s) && s.wal == "" && NothingPending(s.batches)
    ensures Durable(env, Do(env, s, Log(lines, ok))) <==> lines == [] || (ok && AllLoggable(lines))
  {
    var s' := Do(env, s, Log(lines, ok));
    assert s'.batches == s.batches + [Batch(lines, Logged)];
    assert Stored(env, s'.batches);
    if ok {
      assert "" + Serialize(lines) == Serialize(lines);
      NewestReplayableIff(s.batches, lines);
    } else {
      assert Recover("") == [];
      EmptyLogIff(s'.batches);
      NewestPendingIff(s.batches, lines);
    }
  }

  lemma NewestPendingIff(batches: seq<Batch>, lines: seq<string>)
    requires NothingPending(batches)
    ensures NothingPending(batches + [Batch(lines, Logged)]) <==> lines == []
  {
    var all := batches + [Batch(lines, Logged)];
    assert all[|batches|].lines == lines;
  }

  lemma NewestReplayableIff(batches: seq<Batch>, lines: seq<string>)
    requires NothingPending(batches)
    ensures Replayable(batches + [Batch(lines, Logged)], Recover(Serialize(lines))) <==> lines == [] || AllLoggable(lines)
  {
    var all, log := batches + [Batch(lines, Logged)], Recover(Serialize(lines));
    WalRoundTripIff(lines);
    if lines == [] || AllLoggable(lines) {
      assert Placed(all, log, seq(|all|, _ => 0));
    }
    if Replayable(all, log) { NewestStands(all, log, lines); }
  }

  lemma NewestStands(batches: seq<Batch>, log: seq<string>, lines: seq<string>)
    requires Replayable(batches, log) && batches != [] && batches[|batches| - 1] == Batch(lines, Logged)
    ensures lines == [] || log != []
    ensures log == Recover(Serialize(lines)) ==> lines == [] || AllLoggable(lines)
  {
    var starts :| Placed(batches, log, starts);
    var start := starts[|batches| - 1];
    assert StandsAt(log, start, lines);
    if log == Recover(Serialize(lines)) { StandsIff(lines, start); }
  }

  /** Swapping a batch in keeps everything durable exactly when the batch fits in a row group. */
  lemma SwapDurableIff(env: Env, s: State, g: Group)
    requires WorkerInv(s) && Durable(env, s) && Enabled(env, s, Swap(g))
    ensures Durable(env, Do(env, s, Swap(g))) <==> |s.batches[s.worker.id].lines| <= 65536
  {
    var s' := Do(env, s, Swap(g));
    TranscodingStoresIff(env, s.batches[s.worker.id].lines, g);
    PhaseKeepsPlaces(s.batches, Recover(s.wal), s.worker.id, Compacted(g));
    assert s'.batches[s.worker.id] == Batch(s.batches[s.worker.id].lines, Compacted(g));
  }

  /** Nothing but empty batches awaits transcoding. */
  ghost predicate NothingPending(batches: seq<Batch>) {
    forall id | 0 <= id < |batches| && !batches[id].phase.Compacted? :: batches[id].lines == []
  }

  /** An empty log can only replay empty batches. */
  lemma EmptyLogIff(batches: seq<Batch>)
    ensures Replayable(batches, []) <==> NothingPending(batches)
  {
    if Replayable(batches, []) {
      var starts :| Placed(batches, [], starts);
      forall id | 0 <= id < |batches| && !batches[id].phase.Compacted? ensures batches[id].lines == [] {
        assert StandsAt([], starts[id], batches[id].lines);
      }
    }
    if NothingPending(batches) {
      assert Placed(batches, [], seq(|batches|, _ => 0));
    }
  }

  /** Truncation clears the whole log, so it is safe exactly when no other batch is pending. */
  lemma TruncateDurableIff(env: Env, s: State)
    requires Durable(env, s) && Enabled(env, s, Truncate(true))
    ensures Durable(env, Do(env, s, Truncate(true))) <==> NothingPending(s.batches)
  {
    assert Recover("") == [];
    EmptyLogIff(s.batches);
  }

  lemma PhaseKeepsDurable(env: Env, s: State, step: Step)
    requires Durable(env, s) && Enabled(env, s, step)
    requires step.Count? || step.Acknowledge? || step.Load? || step.Subtract? || step == Truncate(false)
    ensures Durable(env, Do(env, s, step))
  {
    if step.Count? || step.Acknowledge? {
      PhaseKeepsPlaces(s.batches, Recover(s.wal), step.id, if step.Count? then Counted else Acknowledged);
    }
  }

  ghost predicate IsRun(env: Env, steps: seq<Step>)
    decreases |steps|, 0
  {
    steps == [] ||
    (IsRun(env, steps[..|steps| - 1]) && Enabled(env, After(env, steps[..|steps| - 1]), steps[|steps| - 1]))
  }

  ghost function After(env: Env, steps: seq<Step>): State
    requires IsRun(env, steps)
    decreases |steps|, 1
  {
    if steps == [] then Init() else Do(env, After(env, steps[..|steps| - 1]), steps[|steps| - 1])
  }

  /** In every interleaving the counter is the outstanding total modulo 2^64. */
  lemma {:induction false} RunInv(env: Env, steps: seq<Step>)
    requires IsRun(env, steps)
    ensures Inv(After(env, steps))
  {
    if steps != [] {
      RunInv(env, steps[..|steps| - 1]);
      StepKeepsInv(env, After(env, steps[..|steps| - 1]), steps[|steps| - 1]);
    }
  }

  /** The worker always has something to swap in. */
  lemma SwapPossible(env: Env, s: State) returns (g: Group)
    requires Inv(s) && s.worker.Transcoding?
    ensures Enabled(env, s, Swap(g))
  {
    g := TranscodingExists(env.hash, BatchRows(env.parse, s.batches[s.worker.id].lines));
  }

  /** A committed group is never replaced: once compacted, a batch keeps its group to the end of the run. */
  lemma {:induction false} CompactedStays(env: Env, steps: seq<Step>, n: nat, id: nat)
    requires IsRun(env, steps) && n <= |steps|
    ensures IsRun(env, steps[..n])
    ensures var s, s' := After(env, steps[..n]), After(env, steps);
            id < |s.batches| && s.batches[id].phase.Compacted? ==> id < |s'.batches| && s'.batches[id] == s.batches[id]
  {
    if n == |steps| {
      assert steps[..n] == steps;
    } else {
      var init := steps[..|steps| - 1];
      CompactedStays(env, init, n, id);
      assert init[..n] == steps[..n];
      RunInv(env, init);
    }
  }

  lemma RunSnoc(env: Env, steps: seq<Step>, step: Step)
    requires IsRun(env, steps) && Enabled(env, After(env, steps), step)
    ensures IsRun(env, steps + [step]) && After(env, steps + [step]) == Do(env, After(env, steps), step)
  {
    assert (steps + [step])[..|steps|] == steps;
  }

  /** Transcoding a compacted batch again, at any point of any run, changes nothing that follows. */
  lemma {:induction false} ReloadsInvisible(env: Env, steps: seq<Step>, n: nat, id: nat)
    requires IsRun(env, steps) && n <= |steps| && IsRun(env, steps[..n])
    requires Enabled(env, After(env, steps[..n]), Load(id)) && After(env, steps[..n]).batches[id].phase.Compacted?
    ensures var steps' := steps[..n] + [Load(id)] + steps[n..];
            IsRun(env, steps') && After(env, steps') == After(env, steps)
  {
    var steps' := steps[..n] + [Load(id)] + steps[n..];
    if n == |steps| {
      assert steps[..n] == steps && steps' == steps + [Load(id)];
      RunSnoc(env, steps, Load(id));
    } else {
      var init, last := steps[..|steps| - 1], steps[|steps| - 1];
      assert init[..n] == steps[..n];
      ReloadsInvisible(env, init, n, id);
      var init' := init[..n] + [Load(id)] + init[n..];
      assert steps' == init' + [last];
      RunSnoc(env, init', last);
    }
  }

  /** No batch is pending and the worker is idle. */
  ghost predicate Quiet(s: State) {
    s.worker.Idle? && forall id | 0 <= id < |s.batches| :: s.batches[id].phase.Compacted?
  }

  /** Logging succeeds, and the batch holds loggable lines and fits in a row group. */
  predicate GoodLog(step: Step) { step.Log? ==> step.ok && AllLoggable(step.lines) && |step.lines| <= ROWS }

  /** Each batch is committed before the next is logged. */
  ghost predicate Serial(env: Env, steps: seq<Step>)
    requires IsRun(env, steps)
    decreases |steps|
  {
    steps == [] ||
    (var init, last := steps[..|steps| - 1], steps[|steps| - 1];
     && Serial(env, init)
     && GoodLog(last) && (last.Log? ==> Quiet(After(env, init))))
  }

  /** In a serial run at most the newest batch is pending, and the worker is on it. */
  ghost predicate SerialInv(env: Env, s: State) {
    && Inv(s) && Durable(env, s) && AllLoggable(s.logged)
    && NewestPending(s)
  }

  ghost predicate NewestPending(s: State) {
    && (forall id | 0 <= id < |s.batches| :: |s.batches[id].lines| <= ROWS)
    && (forall id | 0 <= id < |s.batches| - 1 :: s.batches[id].phase.Compacted?)
    && (!s.worker.Idle? ==> s.worker.id == |s.batches| - 1)
  }

  lemma SerialStepShape(env: Env, s: State, step: Step)
    requires Inv(s) && NewestPending(s) && Enabled(env, s, step) && GoodLog(step) && (step.Log? ==> Quiet(s))
    ensures NewestPending(Do(env, s, step))
  {
  }

  lemma SerialStepDurable(env: Env, s: State, step: Step)
    requires SerialInv(env, s) && Enabled(env, s, step) && GoodLog(step)
    ensures Durable(env, Do(env, s, step))
  {
    match step
    case Log(lines, _) => LogKeepsDurable(env, s, lines);
    case Swap(g) => SwapDurableIff(env, s, g);
    case Truncate(ok) =>
      if ok { TruncateDurableIff(env, s); } else { PhaseKeepsDurable(env, s, step); }
    case _ => PhaseKeepsDurable(env, s, step);
  }

  lemma SerialStep(env: Env, s: State, step: Step)
    requires SerialInv(env, s) && Enabled(env, s, step) && GoodLog(step) && (step.Log? ==> Quiet(s))
    ensures SerialInv(env, Do(env, s, step))
  {
    StepKeepsInv(env, s, step);
    SerialStepDurable(env, s, step);
    SerialStepShape(env, s, step);
    assert AllLoggable(Do(env, s, step).logged);
  }

  lemma {:induction false} SerialRunsKeep(env: Env, steps: seq<Step>)
    requires IsRun(env, steps) && Serial(env, steps)
    ensures SerialInv(env, After(env, steps))
  {
    if steps == [] {
      assert Placed([], [], []);
    } else {
      SerialRunsKeep(env, steps[..|steps| - 1]);
      SerialStep(env, After(env, steps[..|steps| - 1]), steps[|steps| - 1]);
    }
  }

  /** At every point of a serial run, each batch stands whole in what recovery returns, or each of its
      lines has its own row in the group the batch was replaced by. */
  lemma SerialRunsDurable(env: Env, steps: seq<Step>, n: nat)
    requires IsRun(env, steps) && Serial(env, steps) && n <= |steps|
    ensures IsRun(env, steps[..n]) && Durable(env, After(env, steps[..n]))
  {
    SerialPrefix(env, steps, n);
    SerialRunsKeep(env, steps[..n]);
  }

  lemma {:induction false} SerialPrefix(env: Env, steps: seq<Step>, n: nat)
    requires IsRun(env, steps) && Serial(env, steps) && n <= |steps|
    ensures IsRun(env, steps[..n]) && Serial(env, steps[..n])
  {
    if n == |steps| {
      assert steps[..n] == steps;
    } else {
      SerialPrefix(env, steps[..|steps| - 1], n);
      assert steps[..|steps| - 1][..n] == steps[..n];
    }
  }

  lemma Extend(env: Env, steps: seq<Step>, s: State, step: Step) returns (steps': seq<Step>, s': State)
    requires IsRun(env, steps) && s == After(env, steps) && Enabled(env, s, step)
    ensures steps' == steps + [step] && IsRun(env, steps') && s' == After(env, steps') == Do(env, s, step)
  {
    RunSnoc(env, steps, step);
    steps', s' := steps + [step], Do(env, s, step);
  }

  lemma PhaseOfNewest(s: State, before: seq<Batch>, lines: seq<string>, p: Phase, p': Phase)
    requires s.batches == before + [Batch(lines, p)]
    ensures s.batches[|before|] == Batch(lines, p)
    ensures SetPhase(s, |before|, p').batches == before + [Batch(lines, p')]
  {
  }

  /** Logs, counts and acknowledges one more batch. */
  lemma AppendBatch(env: Env, steps: seq<Step>, s: State, lines: seq<string>) returns (steps': seq<Step>, s': State)
    requires IsRun(env, steps) && s == After(env, steps)
    ensures IsRun(env, steps') && s' == After(env, steps')
    ensures s'.batches == s.batches + [Batch(lines, Acknowledged)] && s'.worker == s.worker
    ensures s'.wal == s.wal + Serialize(lines)
  {
    var n := |s.batches|;
    var steps1, s1 := Extend(env, steps, s, Log(lines, true));
    assert s1.batches == s.batches + [Batch(lines, Logged)];
    PhaseOfNewest(s1, s.batches, lines, Logged, Counted);
    var steps2, s2 := Extend(env, steps1, s1, Count(n));
    PhaseOfNewest(s2, s.batches, lines, Counted, Acknowledged);
    steps', s' := Extend(env, steps2, s2, Acknowledge(n));
  }

  /** Transcodes, swaps, subtracts and truncates. */
  lemma CommitBatch(env: Env, steps: seq<Step>, s: State, id: nat) returns (steps': seq<Step>, s': State, g: Group)
    requires IsRun(env, steps) && s == After(env, steps)
    requires id < |s.batches| && s.batches[id].phase == Acknowledged && s.worker == Idle
    ensures IsRun(env, steps') && s' == After(env, steps')
    ensures s'.batches == s.batches[id := s.batches[id].(phase := Compacted(g))] && s'.wal == ""
  {
    var steps1, s1 := Extend(env, steps, s, Load(id));
    RunInv(env, steps1);
    g := SwapPossible(env, s1);
    var steps2, s2 := Extend(env, steps1, s1, Swap(g));
    var steps3, s3 := Extend(env, steps2, s2, Subtract);
    steps', s' := Extend(env, steps3, s3, Truncate(true));
  }

  /** Without the discipline an acknowledged batch can be lost: committing the first of
      two acknowledged batches erases the log of the second. */
  lemma OverlappingBatchesLoseLines(env: Env) returns (steps: seq<Step>, s: State, g: Group)
    ensures IsRun(env, steps) && s == After(env, steps)
    ensures s.batches == [Batch(["a"], Compacted(g)), Batch(["b"], Acknowledged)] && Recover(s.wal) == []
    ensures !Durable(env, s)
  {
    steps, s := AppendBatch(env, [], Init(), ["a"]);
    steps, s := AppendBatch(env, steps, s, ["b"]);
    steps, s, g := CommitBatch(env, steps, s, 0);
    assert s.batches == [Batch(["a"], Compacted(g)), Batch(["b"], Acknowledged)];
    EmptyLogIff(s.batches);
    assert s.batches[1].lines != [];
  }
}
