/** The ingester object: slot assignment, block-by-block transcoding into a
    row group, raw staging behind a write-ahead log, and the swap that commits
    a staged group. */
module Adaptive {
  import opened Bits
  import opened BitPlanes
  import opened PlaneMemory
  import opened Storage
  import opened Ingest
  import opened Lines
  import Wal

  function Min(a: nat, b: nat): nat { if a <= b then a else b }

  /** A shared pointer that readers load and a committing writer replaces. */
  class GroupRef {
    var target: RowGroup?

    constructor (rg: RowGroup?)
      ensures target == rg
    {
      target := rg;
    }
  }

  /** The part of a group that its rows' metadata feeds. */
  function MetadataView(rg: RowGroup): Metadata
    reads rg
  {
    Metadata(rg.zoneMaps, rg.stringBloom, rg.warmDictStrings)
  }

  const FIXED_SLOTS: map<string, nat> := map["status" := 0, "latency" := 1, "trace_id" := 32]

  class AdaptiveIngester {
    const parse: string -> Doc
    const hash: Hash
    var fieldToSlotMap: map<string, nat>
    var nextHotSlot: nat
    var nextWarmSlot: nat
    var activeBufferDepth: u64
    var wal: string

    /** The slot map is either untouched or holds exactly the three slots the planner relies on. */
    ghost predicate Valid()
      reads this
    {
      || (fieldToSlotMap == map[] && nextHotSlot == 0 && nextWarmSlot == 0)
      || (fieldToSlotMap == FIXED_SLOTS && nextHotSlot == 2 && nextWarmSlot == 1)
    }

    constructor (parse: string -> Doc, hash: Hash)
      ensures Valid() && this.parse == parse && this.hash == hash && activeBufferDepth == 0 && wal == ""
    {
      this.parse, this.hash := parse, hash;
      fieldToSlotMap, nextHotSlot, nextWarmSlot := map[], 0, 0;
      activeBufferDepth, wal := 0, "";
    }

    method ResolveSlots() returns (status: nat, latency: nat, trace: nat)
      requires Valid()
      modifies `fieldToSlotMap, `nextHotSlot, `nextWarmSlot
      ensures Valid() && fieldToSlotMap == FIXED_SLOTS
      ensures status == 0 && latency == 1 && trace == 32
    {
      if "status" !in fieldToSlotMap {
        fieldToSlotMap := fieldToSlotMap["status" := nextHotSlot];
        nextHotSlot := nextHotSlot + 1;
      }
      status := fieldToSlotMap["status"];
      if "latency" !in fieldToSlotMap {
        fieldToSlotMap := fieldToSlotMap["latency" := nextHotSlot];
        nextHotSlot := nextHotSlot + 1;
      }
      latency := fieldToSlotMap["latency"];
      if "trace_id" !in fieldToSlotMap {
        fieldToSlotMap := fieldToSlotMap["trace_id" := 32 + nextWarmSlot];
        nextWarmSlot := nextWarmSlot + 1;
      }
      trace := fieldToSlotMap["trace_id"];
    }

    /** Parses one line into its place in the two buffers and records its metadata. */
    method TakeRow(rg: RowGroup, line: string, block: nat, i: nat, rowIdx: nat, statusSlot: nat, latencySlot: nat,
                   statusBuf: seq<u64>, latencyBuf: seq<u64>, ghost rows: seq<StoredRow>)
      returns (statusBuf': seq<u64>, latencyBuf': seq<u64>)
      requires rg.Valid() && statusSlot == 0 && latencySlot == 1
      requires rowIdx == 64 * block + i && i < 64 && rowIdx < |rows| && rows[rowIdx] == RowOf(parse(line))
      requires BuffersHold(statusBuf, latencyBuf, rows, block, i)
      requires MetadataView(rg) == MetadataAfter(hash, rows, rowIdx)
      modifies rg`zoneMaps, rg`stringBloom, rg`warmDictStrings
      ensures rg.Valid() && BuffersHold(statusBuf', latencyBuf', rows, block, i + 1)
      ensures MetadataView(rg) == MetadataAfter(hash, rows, rowIdx + 1)
    {
      var row := RowOf(parse(line));
      BuffersStep(statusBuf, latencyBuf, rows, block, i);
      statusBuf' := statusBuf[i := row.status];
      latencyBuf' := latencyBuf[i := row.latency];
      RecordRow(rg, row, statusSlot, latencySlot, rows, rowIdx);
    }

    /** Parses the rows of one block into the two buffers, updating zone maps, filter and dictionary. */
    method FillBlock(rg: RowGroup, lines: seq<string>, block: nat, statusSlot: nat, latencySlot: nat, ghost rows: seq<StoredRow>)
      returns (statusBuf: seq<u64>, latencyBuf: seq<u64>)
      requires rg.Valid() && statusSlot == 0 && latencySlot == 1
      requires IsBatch(parse, lines, rows) && 64 * block < |rows| && block < 1024
      requires MetadataView(rg) == MetadataAfter(hash, rows, RowsIn(rows, block))
      modifies rg`zoneMaps, rg`stringBloom, rg`warmDictStrings
      ensures rg.Valid()
      ensures MetadataView(rg) == MetadataAfter(hash, rows, RowsIn(rows, block + 1))
      ensures IsBuffer(statusBuf, Statuses(rows), block) && IsBuffer(latencyBuf, Latencies(rows), block)
    {
      statusBuf, latencyBuf := seq(64, _ => 0), seq(64, _ => 0);
      var i, rowIdx := 0, 64 * block;
      assert RowsIn(rows, block) == rowIdx;
      while i < 64 && rowIdx < |lines|
        invariant 0 <= i <= 64 && rowIdx == 64 * block + i <= |rows| && rg.Valid()
        invariant BuffersHold(statusBuf, latencyBuf, rows, block, i)
        invariant MetadataView(rg) == MetadataAfter(hash, rows, rowIdx)
      {
        statusBuf, latencyBuf :=
          TakeRow(rg, lines[rowIdx], block, i, rowIdx, statusSlot, latencySlot, statusBuf, latencyBuf, rows);
        i, rowIdx := i + 1, rowIdx + 1;
      }
      assert RowsIn(rows, block + 1) == rowIdx;
      BuffersDone(statusBuf, latencyBuf, rows, block, i);
    }

    /** The metadata updates of one row. */
    method RecordRow(rg: RowGroup, row: StoredRow, statusSlot: nat, latencySlot: nat, ghost rows: seq<StoredRow>, ghost n: nat)
      requires rg.Valid() && statusSlot == 0 && latencySlot == 1
      requires n < |rows| && row == rows[n] && MetadataView(rg) == MetadataAfter(hash, rows, n)
      modifies rg`zoneMaps, rg`stringBloom, rg`warmDictStrings
      ensures rg.Valid()
      ensures MetadataView(rg) == MetadataAfter(hash, rows, n + 1)
    {
      rg.zoneMaps := rg.zoneMaps[statusSlot := rg.zoneMaps[statusSlot].Update(row.status)];
      rg.zoneMaps := rg.zoneMaps[latencySlot := rg.zoneMaps[latencySlot].Update(row.latency)];
      var w := row.warm;
      if w.Some? {
        rg.stringBloom := Add(hash, rg.stringBloom, w.value);
        rg.warmDictStrings := rg.warmDictStrings + [w.value];
      }
    }

    /** Writes a sliced block: 64 words into each of the two columns. */
    method WritePlanes(rg: RowGroup, block: nat, statusBuf: seq<u64>, latencyBuf: seq<u64>,
                       statusSlot: nat, latencySlot: nat, ghost rows: seq<StoredRow>)
      requires rg.Valid() && block < 1024 && statusSlot == 0 && latencySlot == 1
      requires IsBuffer(statusBuf, Statuses(rows), block) && IsBuffer(latencyBuf, Latencies(rows), block)
      requires PlanesUpTo(rg.hotDataPlanes, rows, block, 0)
      modifies rg`hotDataPlanes
      ensures rg.Valid() && PlanesUpTo(rg.hotDataPlanes, rows, block + 1, 0)
    {
      var statusPlanes, latencyPlanes := Slice(statusBuf), Slice(latencyBuf);
      var bit := 0;
      while bit < 64
        invariant 0 <= bit <= 64 && rg.Valid()
        invariant PlanesUpTo(rg.hotDataPlanes, rows, block, bit)
      {
        StorePlane(rg.hotDataPlanes, rows, block, bit, statusBuf, latencyBuf);
        rg.hotDataPlanes := StoreWord(rg.hotDataPlanes, WordAddress(statusSlot, bit, block), statusPlanes[bit]);
        rg.hotDataPlanes := StoreWord(rg.hotDataPlanes, WordAddress(latencySlot, bit, block), latencyPlanes[bit]);
        bit := bit + 1;
      }
      PlanesRoll(rg.hotDataPlanes, rows, block);
    }

    method MarkBlock(rg: RowGroup, block: nat, statusSlot: nat, latencySlot: nat, traceSlot: nat)
      requires rg.Valid() && statusSlot == 0 && latencySlot == 1 && traceSlot == 32
      requires PresenceUpTo(rg.nullMaps, block)
      modifies rg`nullMaps
      ensures rg.Valid() && PresenceUpTo(rg.nullMaps, block + 1)
    {
      PresenceStep(rg.nullMaps, block);
      rg.SetBlockPresence(statusSlot, block);
      rg.SetBlockPresence(latencySlot, block);
      rg.SetBlockPresence(traceSlot, block);
    }

    /** What the group holds after `blocks` blocks, read off its fields. */
    ghost predicate InProgress(rg: RowGroup, rows: seq<StoredRow>, blocks: nat)
      reads rg
    {
      && PlanesUpTo(rg.hotDataPlanes, rows, blocks, 0)
      && PresenceUpTo(rg.nullMaps, blocks)
      && MetadataView(rg) == MetadataAfter(hash, rows, RowsIn(rows, blocks))
      && rg.rawChunkBuffer == [] && !rg.isCompacted
    }

    /** One iteration of the block loop: presence, rows, planes. */
    method IngestBlock(rg: RowGroup, lines: seq<string>, block: nat, statusSlot: nat, latencySlot: nat, traceSlot: nat,
                       ghost rows: seq<StoredRow>)
      requires rg.Valid() && statusSlot == 0 && latencySlot == 1 && traceSlot == 32
      requires IsBatch(parse, lines, rows) && 64 * block < |rows| && InProgress(rg, rows, block)
      modifies rg
      ensures rg.Valid() && InProgress(rg, rows, block + 1)
    {
      MarkBlock(rg, block, statusSlot, latencySlot, traceSlot);
      ghost var presence := rg.nullMaps;
      var statusBuf, latencyBuf := FillBlock(rg, lines, block, statusSlot, latencySlot, rows);
      ghost var metadata := MetadataView(rg);
      WritePlanes(rg, block, statusBuf, latencyBuf, statusSlot, latencySlot, rows);
      assert rg.nullMaps == presence && MetadataView(rg) == metadata;
    }

    /** The block loop. */
    method FillGroup(rg: RowGroup, lines: seq<string>, statusSlot: nat, latencySlot: nat, traceSlot: nat, ghost rows: seq<StoredRow>)
      requires rg.Valid() && statusSlot == 0 && latencySlot == 1 && traceSlot == 32
      requires IsBatch(parse, lines, rows) && InProgress(rg, rows, 0)
      modifies rg
      ensures rg.Valid() && InProgress(rg, rows, (|rows| + 63) / 64)
    {
      var numBlocks := (|lines| + 63) / 64;
      if numBlocks > 1024 {
        numBlocks := 1024;
      }
      var block := 0;
      while block < numBlocks
        invariant 0 <= block <= numBlocks && rg.Valid()
        invariant InProgress(rg, rows, block)
      {
        IngestBlock(rg, lines, block, statusSlot, latencySlot, traceSlot, rows);
        block := block + 1;
      }
    }

    /** Transcodes a batch into a fresh row group; lines past the 65536th are not stored. */
    method IngestChunk(lines: seq<string>) returns (rg: RowGroup)
      requires Valid()
      modifies `fieldToSlotMap, `nextHotSlot, `nextWarmSlot
      ensures Valid() && fieldToSlotMap == FIXED_SLOTS
      ensures fresh(rg) && rg.Valid() && !rg.isCompacted
      ensures Transcoded(hash, BatchRows(parse, lines), rg.View()) && rg.fingerprintHash == 0xABC123987
    {
      rg := new RowGroup();
      ghost var rows := BatchRows(parse, lines);
      EmptyProgress(hash, rows);
      var statusSlot, latencySlot, traceSlot := ResolveSlots();
      FillGroup(rg, lines, statusSlot, latencySlot, traceSlot, rows);
      ghost var filled := rg.View();
      FullProgress(hash, rows, (|rows| + 63) / 64, filled);
      rg.fingerprintHash := FINGERPRINT;
      assert rg.View() == filled.(fingerprint := FINGERPRINT);
    }

    /** Writes the batch to the log; a log that does not open is left alone. */
    method AppendWalEntry(batch: seq<string>, walOpens: bool) returns (ok: bool)
      modifies `wal
      ensures ok == walOpens
      ensures wal == if walOpens then old(wal) + Serialize(batch) else old(wal)
    {
      if !walOpens {
        return false;
      }
      var entry := "";
      var i := 0;
      while i < |batch|
        invariant 0 <= i <= |batch|
        invariant entry == Serialize(batch[..i])
      {
        entry := entry + batch[i] + "\n";
        assert batch[..i + 1][..i] == batch[..i];
        i := i + 1;
      }
      assert batch[..i] == batch;
      wal := wal + entry;
      return true;
    }

    method TruncateWal(walOpens: bool)
      modifies `wal
      ensures wal == if walOpens then "" else old(wal)
    {
      if walOpens {
        wal := "";
      }
    }

    method RecoverFromWal(walOpens: bool) returns (recovered: seq<string>)
      ensures recovered == if walOpens then Wal.Recover(wal) else []
    {
      recovered := [];
      if walOpens {
        recovered := Wal.RecoverLines(wal);
      }
    }

    /** Logs and stages a batch without transcoding it. The result of the log write is not consulted. */
    method AppendRawBatch(lines: seq<string>, walOpens: bool) returns (rg: RowGroup)
      modifies `wal, `activeBufferDepth
      ensures fresh(rg) && rg.Valid()
      ensures rg.rawChunkBuffer == lines && !rg.isCompacted && Staged(rg.View()) && rg.fingerprintHash == 0xABC123987
      ensures wal == if walOpens then old(wal) + Serialize(lines) else old(wal)
      ensures activeBufferDepth == WrapAdd(old(activeBufferDepth), |lines|)
    {
      var _ := AppendWalEntry(lines, walOpens);
      rg := new RowGroup();
      rg.rawChunkBuffer := lines;
      rg.isCompacted := false;
      rg.fingerprintHash := FINGERPRINT;
      activeBufferDepth := WrapAdd(activeBufferDepth, |lines|);
    }

    /** Commits a staged group: transcode, swap the pointer, then truncate the log.
        A missing or already compacted group is left untouched. */
    method TranscodeBatchNow(ref: GroupRef, walOpens: bool) returns (drained: nat)
      requires Valid() && (ref.target != null ==> ref.target.Valid())
      modifies this, ref`target
      ensures Valid()
      ensures old(ref.target == null || ref.target.isCompacted) ==>
                drained == 0 && ref.target == old(ref.target) && wal == old(wal) && activeBufferDepth == old(activeBufferDepth)
      ensures old(ref.target != null && !ref.target.isCompacted) ==>
                && drained == old(|ref.target.rawChunkBuffer|)
                && ref.target != null && fresh(ref.target) && ref.target.Valid() && ref.target.isCompacted
                && Transcoded(hash, BatchRows(parse, old(ref.target.rawChunkBuffer)), ref.target.View())
                && activeBufferDepth == WrapSub(old(activeBufferDepth), drained)
                && wal == (if walOpens then "" else old(wal))
    {
      var oldRg := ref.target;
      if oldRg == null || oldRg.isCompacted {
        return 0;
      }
      drained := |oldRg.rawChunkBuffer|;
      var transcoded := IngestChunk(oldRg.rawChunkBuffer);
      transcoded.isCompacted := true;
      ref.target := transcoded;
      activeBufferDepth := WrapSub(activeBufferDepth, drained);
      TruncateWal(walOpens);
    }
  }

  /** Metadata of a group that has only been staged: no values seen, nothing in the filter. */
  ghost predicate Staged(g: Group) {
    |g.zones| == 64 && (forall c | 0 <= c < 64 :: g.zones[c] == EMPTY_ZONE) && g.filter == EmptyFilter()
  }
}
