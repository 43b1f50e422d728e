/** The command-line stream ingester: stdin lines are batched by a thousand, and each batch is
    staged and committed before the next one is started. */
module StreamIngest {
  import opened Bits
  import opened Storage
  import opened Ingest
  import opened CommitLog
  import opened Adaptive

  const BATCH := 1000

  /** Lines of the k-th batch; none past the end of the input. */
  function BatchOf(input: seq<string>, k: nat): seq<string> {
    input[Min(BATCH * k, |input|)..Min(BATCH * (k + 1), |input|)]
  }

  /** Whether the log opens for an append and for the truncation that follows, by the number of
      lines ingested before. */
  type Opens = nat -> (bool, bool)

  function RoundOf(opens: Opens, input: seq<string>, k: nat): Round {
    Round(BatchOf(input, k), opens(BATCH * k).0, opens(BATCH * k).1)
  }

  function Rounds(opens: Opens, input: seq<string>, n: nat): seq<Round> {
    seq(n, k requires 0 <= k < n => RoundOf(opens, input, k))
  }

  /** The log after the first `n` batches. */
  function LogAfter(opens: Opens, wal: string, input: seq<string>, n: nat): string {
    AfterRounds(wal, Rounds(opens, input, n))
  }

  lemma LogStep(opens: Opens, wal: string, input: seq<string>, n: nat)
    ensures LogAfter(opens, wal, input, n + 1) == AfterRound(LogAfter(opens, wal, input, n), RoundOf(opens, input, n))
  {
    assert Rounds(opens, input, n + 1)[..n] == Rounds(opens, input, n);
  }

  /** `g` is the transcoding of `batch`. */
  ghost predicate Stores(ingester: AdaptiveIngester, batch: seq<string>, g: Group) {
    Transcoded(ingester.hash, BatchRows(ingester.parse, batch), g)
  }

  /** The groups hold the first batches in order, each transcoded in full. */
  ghost predicate Committed(ingester: AdaptiveIngester, input: seq<string>, groups: seq<Group>) {
    forall k | 0 <= k < |groups| :: Stores(ingester, BatchOf(input, k), groups[k])
  }

  lemma CommittedSnoc(ingester: AdaptiveIngester, input: seq<string>, groups: seq<Group>, group: Group)
    requires Committed(ingester, input, groups)
    requires Stores(ingester, BatchOf(input, |groups|), group)
    ensures Committed(ingester, input, groups + [group])
  {
  }

  /** After `i` lines: `n` batches committed, the rest still buffered. */
  ghost predicate Reading(input: seq<string>, i: nat, batch: seq<string>, total: nat, n: nat) {
    total == BATCH * n && total <= i <= |input| && batch == input[total..i] && |batch| < BATCH
  }

  lemma NextLine(input: seq<string>, i: nat, batch: seq<string>, total: nat, n: nat)
    requires Reading(input, i, batch, total, n) && i < |input|
    ensures var more := batch + [input[i]];
            if |more| < BATCH then Reading(input, i + 1, more, total, n)
            else more == BatchOf(input, n) && Reading(input, i + 1, [], total + |more|, n + 1)
  {
    assert input[total..i] + [input[i]] == input[total..i + 1];
  }

  lemma DepthRestored(depth: u64, n: nat)
    ensures WrapSub(WrapAdd(depth, n), n) == depth
  {
    SubMod(depth + n, n, ALL_ONES + 1);
  }

  /** Stages and commits one batch; `group` is what the commit swapped in. */
  method IngestBatch(ingester: AdaptiveIngester, batch: seq<string>, appends: bool, truncates: bool)
    returns (drained: nat, ghost group: Group)
    requires ingester.Valid()
    modifies ingester
    ensures ingester.Valid() && ingester.activeBufferDepth == old(ingester.activeBufferDepth)
    ensures ingester.wal == AfterRound(old(ingester.wal), Round(batch, appends, truncates))
    ensures drained == |batch| && Stores(ingester, batch, group)
  {
    DepthRestored(ingester.activeBufferDepth, |batch|);
    var staged := ingester.AppendRawBatch(batch, appends);
    var ref := new GroupRef(staged);
    drained := ingester.TranscodeBatchNow(ref, truncates);
    group := ref.target.View();
  }

  /** The next batch of the stream: the committed groups grow by one. */
  method CommitNext(ingester: AdaptiveIngester, batch: seq<string>, total: nat, opens: Opens,
                    ghost input: seq<string>, ghost groups: seq<Group>, ghost wal: string)
    returns (drained: nat, ghost groups': seq<Group>)
    requires ingester.Valid() && Committed(ingester, input, groups)
    requires total == BATCH * |groups| && batch == BatchOf(input, |groups|)
    requires ingester.wal == LogAfter(opens, wal, input, |groups|)
    modifies ingester
    ensures ingester.Valid() && ingester.activeBufferDepth == old(ingester.activeBufferDepth)
    ensures drained == |batch| && |groups'| == |groups| + 1 && Committed(ingester, input, groups')
    ensures ingester.wal == LogAfter(opens, wal, input, |groups'|)
  {
    LogStep(opens, wal, input, |groups|);
    var appends, truncates := opens(total).0, opens(total).1;
    assert RoundOf(opens, input, |groups|) == Round(batch, appends, truncates);
    ghost var after := AfterRound(ingester.wal, Round(batch, appends, truncates));
    assert after == LogAfter(opens, wal, input, |groups| + 1);
    ghost var group;
    drained, group := IngestBatch(ingester, batch, appends, truncates);
    assert ingester.wal == after;
    CommittedSnoc(ingester, input, groups, group);
    groups' := groups + [group];
  }

  /** One turn of the read loop: buffer the line, commit a full batch. */
  method TakeLine(ingester: AdaptiveIngester, input: seq<string>, i: nat, batch: seq<string>, total: nat,
                  opens: Opens, ghost groups: seq<Group>, ghost wal: string)
    returns (batch': seq<string>, total': nat, ghost groups': seq<Group>)
    requires ingester.Valid() && Committed(ingester, input, groups)
    requires Reading(input, i, batch, total, |groups|) && i < |input|
    requires ingester.wal == LogAfter(opens, wal, input, |groups|)
    modifies ingester
    ensures ingester.Valid() && ingester.activeBufferDepth == old(ingester.activeBufferDepth)
    ensures Reading(input, i + 1, batch', total', |groups'|)
    ensures ingester.wal == LogAfter(opens, wal, input, |groups'|)
    ensures Committed(ingester, input, groups')
  {
    NextLine(input, i, batch, total, |groups|);
    var more := batch + [input[i]];
    if |more| < BATCH {
      assert Reading(input, i + 1, more, total, |groups|);
      return more, total, groups;
    }
    assert Reading(input, i + 1, [], total + |more|, |groups| + 1);
    var drained, groups1 := CommitNext(ingester, more, total, opens, input, groups, wal);
    return [], total + |more|, groups1;
  }

  /** The read loop: commits every full batch and returns the unfinished one. */
  method ReadLines(ingester: AdaptiveIngester, input: seq<string>, opens: Opens)
    returns (batch: seq<string>, total: nat, ghost groups: seq<Group>)
    requires ingester.Valid()
    modifies ingester
    ensures ingester.Valid() && ingester.activeBufferDepth == old(ingester.activeBufferDepth)
    ensures Reading(input, |input|, batch, total, |groups|)
    ensures ingester.wal == LogAfter(opens, old(ingester.wal), input, |groups|)
    ensures Committed(ingester, input, groups)
  {
    batch, total, groups := [], 0, [];
    for i := 0 to |input|
      invariant ingester.Valid() && ingester.activeBufferDepth == old(ingester.activeBufferDepth)
      invariant Reading(input, i, batch, total, |groups|)
      invariant ingester.wal == LogAfter(opens, old(ingester.wal), input, |groups|)
      invariant Committed(ingester, input, groups)
    {
      batch, total, groups := TakeLine(ingester, input, i, batch, total, opens, groups, old(ingester.wal));
    }
  }

  /** Every line read ends up in exactly one committed group, in order, whichever opens of the log
      fail; the depth counter is back where it was, and the log is what the rounds leave in it. */
  method StreamLines(ingester: AdaptiveIngester, input: seq<string>, opens: Opens)
    returns (total: nat, ghost groups: seq<Group>)
    requires ingester.Valid()
    modifies ingester
    ensures ingester.Valid() && ingester.activeBufferDepth == old(ingester.activeBufferDepth)
    ensures total == |input| && |groups| == (|input| + 999) / 1000
    ensures ingester.wal == LogAfter(opens, old(ingester.wal), input, |groups|)
    ensures Committed(ingester, input, groups)
  {
    var batch;
    batch, total, groups := ReadLines(ingester, input, opens);
    if |batch| > 0 {
      var _, more := CommitNext(ingester, batch, total, opens, input, groups, old(ingester.wal));
      total, groups := total + |batch|, more;
    }
  }

  /** The batches together are the input: nothing dropped, repeated or reordered. */
  lemma {:induction false} BatchesCover(input: seq<string>, n: nat)
    ensures Joined(input, n) == input[..Min(BATCH * n, |input|)]
  {
    if n > 0 {
      BatchesCover(input, n - 1);
    }
  }

  function Joined(input: seq<string>, n: nat): seq<string> {
    if n == 0 then [] else Joined(input, n - 1) + BatchOf(input, n - 1)
  }
}

/** What the stream ingester leaves behind, read back line by line. */
module StreamReadback {
  import opened Bits
  import opened PlaneMemory
  import opened Storage
  import opened Ingest
  import opened Adaptive
  import opened StreamIngest

  /** Row `i` of a group that stores a batch, in the parser's own terms. */
  lemma BatchStored(ingester: AdaptiveIngester, batch: seq<string>, g: Group, i: nat)
    requires Stores(ingester, batch, g) && i < |batch| && i < ROWS
    ensures IsPlanes(g.planes) && RowHolds(g, i, ingester.parse(batch[i]).nums)
  {
    TranscodedFields(ingester.parse, ingester.hash, batch, g, i);
  }

  /** The row holds the status, or 0, and the latency, failing that the latency in milliseconds, or 0. */
  predicate RowHolds(g: Group, r: nat, nums: map<string, u64>)
    requires IsPlanes(g.planes) && r < ROWS
  {
    && Decode(g.planes, 0, r) == (if "status" in nums then nums["status"] else 0)
    && Decode(g.planes, 1, r) ==
       (if "latency" in nums then nums["latency"] else if "latency_ms" in nums then nums["latency_ms"] else 0)
  }

  lemma BatchLine(input: seq<string>, k: nat, r: nat)
    requires r < BATCH && BATCH * k + r < |input|
    ensures r < |BatchOf(input, k)| && BatchOf(input, k)[r] == input[BATCH * k + r]
  {
  }

  /** Line by line: row r of group k decodes to line 1000 k + r of the stream. */
  lemma LineStored(ingester: AdaptiveIngester, input: seq<string>, groups: seq<Group>, k: nat, r: nat)
    requires Committed(ingester, input, groups) && k < |groups| && r < 1000 && 1000 * k + r < |input|
    ensures IsPlanes(groups[k].planes) && RowHolds(groups[k], r, ingester.parse(input[1000 * k + r]).nums)
  {
    BatchLine(input, k, r);
    BatchStored(ingester, BatchOf(input, k), groups[k], r);
  }
}
