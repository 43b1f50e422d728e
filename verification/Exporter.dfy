/** The `.agb` / `.idx` pair: block buffering, zero padding, and positional decoding. */
module Exporter {
  import opened Bits
  import opened BitPlanes
  import opened Documents

  function Blocks(n: nat): nat { (n + 63) / 64 }

  function StatusAt(agb: seq<u64>, k: nat): u64
    requires 128 * (k / 64) + 128 <= |agb|
  {
    RowValue(agb[128 * (k / 64)..128 * (k / 64) + 64], k % 64)
  }

  function LatencyAt(agb: seq<u64>, k: nat): u64
    requires 128 * (k / 64) + 128 <= |agb|
  {
    RowValue(agb[128 * (k / 64) + 64..128 * (k / 64) + 128], k % 64)
  }

  /** Row `k` of the pair of files. */
  function RowAt(agb: seq<u64>, idx: seq<u64>, k: nat): Record
    requires 128 * (k / 64) + 128 <= |agb| && k < |idx|
  {
    Record(StatusAt(agb, k), LatencyAt(agb, k), idx[k])
  }

  function Padded(recs: seq<Record>, k: nat): Record {
    if k < |recs| then recs[k] else Record(0, 0, 0)
  }

  /** The files hold exactly `recs`, padded with zero rows to a whole number of blocks. */
  ghost predicate Encodes(recs: seq<Record>, agb: seq<u64>, idx: seq<u64>) {
    && |idx| == 64 * Blocks(|recs|)
    && |agb| == 128 * Blocks(|recs|)
    && forall k | 0 <= k < |idx| :: RowAt(agb, idx, k) == Padded(recs, k)
  }

  /** Appending one sliced block adds 64 rows and leaves the earlier rows alone. */
  lemma AppendBlock(agb: seq<u64>, idx: seq<u64>, n: nat, st: seq<u64>, la: seq<u64>, off: seq<u64>, k: nat)
    requires |agb| == 128 * n && |idx| == 64 * n
    requires |st| == 64 && |la| == 64 && |off| == 64
    requires k < 64 * n + 64
    ensures var agb2, idx2 := agb + Slice(st) + Slice(la), idx + off;
            RowAt(agb2, idx2, k) ==
            if k < 64 * n then RowAt(agb, idx, k) else Record(st[k - 64 * n], la[k - 64 * n], off[k - 64 * n])
  {
    var agb2 := agb + Slice(st) + Slice(la);
    var b := k / 64;
    if k < 64 * n {
      assert agb2[128 * b..128 * b + 64] == agb[128 * b..128 * b + 64];
      assert agb2[128 * b + 64..128 * b + 128] == agb[128 * b + 64..128 * b + 128];
    } else {
      assert b == n;
      assert agb2[128 * n..128 * n + 64] == Slice(st);
      assert agb2[128 * n + 64..128 * n + 128] == Slice(la);
      SliceRoundTrip(st, k % 64);
      SliceRoundTrip(la, k % 64);
    }
  }

  /** Slices and writes one buffered block; `done` is what the files held and `pending` what the buffers hold. */
  method WriteBlock(agb: seq<u64>, idx: seq<u64>, st: seq<u64>, la: seq<u64>, off: seq<u64>,
                    ghost done: seq<Record>, ghost pending: seq<Record>)
    returns (agb2: seq<u64>, idx2: seq<u64>)
    requires Encodes(done, agb, idx) && |done| % 64 == 0 && 0 < |pending| <= 64
    requires |st| == 64 && |la| == 64 && |off| == 64
    requires forall i | 0 <= i < 64 :: Record(st[i], la[i], off[i]) == Padded(pending, i)
    ensures Encodes(done + pending, agb2, idx2)
  {
    agb2 := agb + Slice(st) + Slice(la);
    idx2 := idx + off;
    var n := |idx| / 64;
    forall k | 0 <= k < |idx2| ensures RowAt(agb2, idx2, k) == Padded(done + pending, k) {
      AppendBlock(agb, idx, n, st, la, off, k);
      if k < 64 * n {
        assert RowAt(agb, idx, k) == Padded(done, k);
      } else {
        assert Record(st[k - 64 * n], la[k - 64 * n], off[k - 64 * n]) == Padded(pending, k - 64 * n);
      }
    }
  }

  /** The buffers hold `pending` in their first entries. */
  ghost predicate Buffered(st: array<u64>, la: array<u64>, off: array<u64>, pending: seq<Record>)
    reads st, la, off
  {
    && st.Length == 64 && la.Length == 64 && off.Length == 64 && |pending| <= 64
    && forall i | 0 <= i < |pending| :: Record(st[i], la[i], off[i]) == pending[i]
  }

  /** Writes one record at the next free entry. */
  method Store(st: array<u64>, la: array<u64>, off: array<u64>, current: nat, r: Record, ghost pending: seq<Record>)
    requires Buffered(st, la, off, pending) && current == |pending| < 64
    requires st != la && la != off && st != off
    modifies st, la, off
    ensures Buffered(st, la, off, pending + [r])
  {
    st[current] := r.status;
    la[current] := r.latency;
    off[current] := r.offset;
  }

  /** Clears the entries past the last record. */
  method PadBuffers(st: array<u64>, la: array<u64>, off: array<u64>, current: nat, ghost pending: seq<Record>)
    requires Buffered(st, la, off, pending) && current == |pending|
    requires st != la && la != off && st != off
    modifies st, la, off
    ensures forall i | 0 <= i < 64 :: Record(st[i], la[i], off[i]) == Padded(pending, i)
  {
    var i := current;
    while i < 64
      invariant current <= i <= 64
      invariant forall m | 0 <= m < i :: Record(st[m], la[m], off[m]) == Padded(pending, m)
    {
      st[i] := 0;
      la[i] := 0;
      off[i] := 0;
      i := i + 1;
    }
  }

  /** The conversion loop: three 64-entry buffers filled in place, flushed when
      full, and zero-padded once at the end. */
  method ConvertJsonToAgb(docs: seq<Document>)
    returns (agb: seq<u64>, idx: seq<u64>, recordCount: nat, blockCount: nat)
    ensures Encodes(Records(docs), agb, idx)
    ensures recordCount == |Records(docs)| && blockCount == Blocks(recordCount)
  {
    agb, idx, recordCount, blockCount := [], [], 0, 0;
    var statusBuf := new u64[64](_ => 0);
    var latencyBuf := new u64[64](_ => 0);
    var offsetBuf := new u64[64](_ => 0);
    var current := 0;
    ghost var done: seq<Record>, pending: seq<Record> := [], [];
    var j := 0;
    while j < |docs|
      invariant 0 <= j <= |docs| && Records(docs[..j]) == done + pending
      invariant |done| == 64 * blockCount && |pending| == current < 64 && recordCount == |done| + |pending|
      invariant Encodes(done, agb, idx)
      invariant Buffered(statusBuf, latencyBuf, offsetBuf, pending)
    {
      assert docs[..j + 1][..j] == docs[..j];
      var d := docs[j];
      j := j + 1;
      if d.Broken? {
        continue;
      }
      var r := Record(OrZero(d.status), OrZero(d.latency), d.offset);
      Store(statusBuf, latencyBuf, offsetBuf, current, r, pending);
      assert done + pending + [r] == done + (pending + [r]);
      pending := pending + [r];
      current := current + 1;
      recordCount := recordCount + 1;
      if current == 64 {
        agb, idx := WriteBlock(agb, idx, statusBuf[..], latencyBuf[..], offsetBuf[..], done, pending);
        done, pending := done + pending, [];
        current := 0;
        blockCount := blockCount + 1;
      }
    }
    assert docs[..j] == docs;
    if current > 0 {
      PadBuffers(statusBuf, latencyBuf, offsetBuf, current, pending);
      agb, idx := WriteBlock(agb, idx, statusBuf[..], latencyBuf[..], offsetBuf[..], done, pending);
      blockCount := blockCount + 1;
    } else {
      assert done + pending == done;
    }
  }

  function FileRows(agb: seq<u64>, idx: seq<u64>): seq<Record>
    requires |agb| == 2 * |idx| && |idx| % 64 == 0
  {
    seq(|idx|, k requires 0 <= k < |idx| => RowAt(agb, idx, k))
  }

  const THREE_FIELD_SIZE := 1996800000

  /** The block count the query service recomputes from the size of a mapped file. */
  function BlocksFromSize(fileBytes: nat): nat {
    var numFields := if fileBytes == THREE_FIELD_SIZE then 3 else 2;
    fileBytes / (numFields * 64 * 8)
  }

  /** The recomputed count is right for every export except the one block count
      whose file happens to have the size reserved for three-field files. */
  lemma BlocksFromSizeIff(recs: seq<Record>, agb: seq<u64>, idx: seq<u64>)
    requires Encodes(recs, agb, idx)
    ensures BlocksFromSize(8 * |agb|) == Blocks(|recs|) <==> Blocks(|recs|) != 1950000
  {
    assert 8 * |agb| == 1024 * Blocks(|recs|);
  }

  /** At that block count a third of the file is not scanned. */
  lemma BlocksFromSizeCounterexample(recs: seq<Record>, agb: seq<u64>, idx: seq<u64>)
    requires Encodes(recs, agb, idx) && Blocks(|recs|) == 1950000
    ensures BlocksFromSize(8 * |agb|) == 1300000
  {
    assert 8 * |agb| == THREE_FIELD_SIZE;
  }
}
