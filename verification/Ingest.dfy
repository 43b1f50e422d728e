/** Transcoding a batch of log lines into a row group. */
module Ingest {
  import opened Bits
  import opened BitPlanes
  import opened PlaneMemory
  import opened Storage

  /** What the JSON parser reports about one line: its unsigned and its string fields. */
  datatype Doc = Doc(nums: map<string, u64>, strs: map<string, string>)

  /** What is kept of a line: status, latency, and the string that goes to the dictionary. */
  datatype StoredRow = StoredRow(status: u64, latency: u64, warm: Option<string>)

  function StatusOf(d: Doc): u64 { if "status" in d.nums then d.nums["status"] else 0 }

  function LatencyOf(d: Doc): u64 {
    if "latency" in d.nums then d.nums["latency"]
    else if "latency_ms" in d.nums then d.nums["latency_ms"]
    else 0
  }

  /** The trace id, or failing that the service. */
  function WarmOf(d: Doc): Option<string> {
    if "trace_id" in d.strs then Some(d.strs["trace_id"])
    else if "service" in d.strs then Some(d.strs["service"])
    else None
  }

  function RowOf(d: Doc): StoredRow { StoredRow(StatusOf(d), LatencyOf(d), WarmOf(d)) }

  /** `rows` are the rows of the lines that fit in one row group. */
  ghost predicate IsBatch(parse: string -> Doc, lines: seq<string>, rows: seq<StoredRow>) {
    && |rows| == (if |lines| <= ROWS then |lines| else ROWS)
    && forall i | 0 <= i < |rows| :: rows[i] == RowOf(parse(lines[i]))
  }

  function BatchRows(parse: string -> Doc, lines: seq<string>): (rows: seq<StoredRow>)
    ensures IsBatch(parse, lines, rows)
  {
    var n := if |lines| <= ROWS then |lines| else ROWS;
    seq(n, i requires 0 <= i < n => RowOf(parse(lines[i])))
  }

  function Statuses(rows: seq<StoredRow>): (vs: seq<u64>)
    ensures |vs| == |rows|
    ensures forall i | 0 <= i < |rows| :: vs[i] == rows[i].status
  {
    seq(|rows|, i requires 0 <= i < |rows| => rows[i].status)
  }

  function Latencies(rows: seq<StoredRow>): (vs: seq<u64>)
    ensures |vs| == |rows|
    ensures forall i | 0 <= i < |rows| :: vs[i] == rows[i].latency
  {
    seq(|rows|, i requires 0 <= i < |rows| => rows[i].latency)
  }

  function CollectWarms(rows: seq<StoredRow>): seq<string> {
    if rows == [] then []
    else
      var w := rows[|rows| - 1].warm;
      CollectWarms(rows[..|rows| - 1]) + if w.Some? then [w.value] else []
  }

  /** The strings of the rows that have one, in order. */
  function Warms(rows: seq<StoredRow>): seq<string> { CollectWarms(rows) }

  lemma {:induction false} WarmsHold(rows: seq<StoredRow>, i: nat)
    requires i < |rows| && rows[i].warm.Some?
    ensures rows[i].warm.value in Warms(rows)
  {
    if i < |rows| - 1 { WarmsHold(rows[..|rows| - 1], i); }
  }

  /** The bit a transcoded group holds at a cell: columns 0 and 1 carry status and latency. */
  predicate Expected(rows: seq<StoredRow>, slot: nat, plane: nat, row: nat) {
    && row < |rows|
    && ((slot == 0 && Bit(rows[row].status, plane)) || (slot == 1 && Bit(rows[row].latency, plane)))
  }

  predicate UsedColumn(col: nat) { col == 0 || col == 1 || col == 32 }

  /** `g` is the transcoding of `rows`: planes, presence, zone maps, filter and dictionary. */
  ghost predicate Transcoded(hash: Hash, rows: seq<StoredRow>, g: Group) {
    && IsPlanes(g.planes) && IsPresence(g.presence) && |g.zones| == 64 && |rows| <= ROWS
    && (forall s, p, r | 0 <= s < SLOTS && 0 <= p < PLANES && 0 <= r < ROWS ::
          Cell(g.planes, s, p, r) == Expected(rows, s, p, r))
    && (forall c, b | 0 <= c < 64 && 0 <= b < 1024 ::
          BlockPresent(g.presence, c, b) <==> UsedColumn(c) && b < (|rows| + 63) / 64)
    && g.zones[0] == ZoneOf(Statuses(rows)) && g.zones[1] == ZoneOf(Latencies(rows))
    && (forall c | 2 <= c < 64 :: g.zones[c] == EMPTY_ZONE)
    && g.filter == FilterOf(hash, Warms(rows)) && g.warm == Warms(rows)
    && g.raw == [] && g.fingerprint == FINGERPRINT
  }

  /** Transcoding preserves meaning: every row reads back as its line's status and latency,
      and every row past the batch reads back as zero. */
  lemma TranscodedDecodes(hash: Hash, rows: seq<StoredRow>, g: Group, row: nat)
    requires Transcoded(hash, rows, g) && row < ROWS
    ensures Decode(g.planes, 0, row) == (if row < |rows| then rows[row].status else 0)
    ensures Decode(g.planes, 1, row) == (if row < |rows| then rows[row].latency else 0)
  {
    forall p | 0 <= p < PLANES ensures !Bit(0, p) { BitOfZero(p); }
    DecodeIs(g.planes, 0, row, if row < |rows| then rows[row].status else 0);
    DecodeIs(g.planes, 1, row, if row < |rows| then rows[row].latency else 0);
  }

  /** What is stored of line `i`, in the parser's own terms: its status, or 0; its latency, failing that
      its latency in milliseconds, or 0. */
  lemma TranscodedFields(parse: string -> Doc, hash: Hash, lines: seq<string>, g: Group, i: nat)
    requires Transcoded(hash, BatchRows(parse, lines), g) && i < |lines| && i < ROWS
    ensures var nums := parse(lines[i]).nums;
            && Decode(g.planes, 0, i) == (if "status" in nums then nums["status"] else 0)
            && Decode(g.planes, 1, i) ==
               (if "latency" in nums then nums["latency"] else if "latency_ms" in nums then nums["latency_ms"] else 0)
  {
    TranscodedDecodes(hash, BatchRows(parse, lines), g, i);
  }

  function CountNamed(parse: string -> Doc, lines: seq<string>, n: nat): nat
    requires n <= |lines|
  {
    if n == 0 then 0
    else
      var strs := parse(lines[n - 1]).strs;
      CountNamed(parse, lines, n - 1) + Digit("trace_id" in strs || "service" in strs)
  }

  /** How many of the first `n` lines carry a trace id or a service. */
  function NamedBefore(parse: string -> Doc, lines: seq<string>, n: nat): nat
    requires n <= |lines|
  {
    CountNamed(parse, lines, n)
  }

  lemma {:induction false} WarmsCount(parse: string -> Doc, lines: seq<string>, n: nat)
    requires n <= |lines| && n <= ROWS
    ensures |Warms(BatchRows(parse, lines)[..n])| == NamedBefore(parse, lines, n)
  {
    if n > 0 {
      WarmsCount(parse, lines, n - 1);
      WarmsSnoc(BatchRows(parse, lines), n - 1);
    }
  }

  lemma WarmsSnoc(rows: seq<StoredRow>, n: nat)
    requires n < |rows|
    ensures Warms(rows[..n + 1]) == Warms(rows[..n]) + if rows[n].warm.Some? then [rows[n].warm.value] else []
  {
    assert rows[..n + 1][..n] == rows[..n];
  }

  /** More rows only add strings at the end. */
  lemma {:induction false} WarmsPrefix(rows: seq<StoredRow>, i: nat, n: nat)
    requires i <= n <= |rows|
    ensures Warms(rows[..i]) <= Warms(rows[..n])
  {
    if i < n {
      WarmsPrefix(rows, i, n - 1);
      WarmsSnoc(rows, n - 1);
    }
  }

  /** The string of row `i` stands behind the strings of the rows before it. */
  lemma WarmsPosition(rows: seq<StoredRow>, i: nat)
    requires i < |rows| && rows[i].warm.Some?
    ensures var k := |Warms(rows[..i])|; k < |Warms(rows)| && Warms(rows)[k] == rows[i].warm.value
  {
    WarmsSnoc(rows, i);
    WarmsPrefix(rows, i + 1, |rows|);
    assert rows[..|rows|] == rows;
  }

  /** The dictionary, in the parser's own terms: one string for each line that has one, in order, the
      trace id before the service. */
  lemma TranscodedStrings(parse: string -> Doc, hash: Hash, lines: seq<string>, g: Group, i: nat)
    requires Transcoded(hash, BatchRows(parse, lines), g) && |lines| <= ROWS && i < |lines|
    ensures |g.warm| == NamedBefore(parse, lines, |lines|)
    ensures var strs, k := parse(lines[i]).strs, NamedBefore(parse, lines, i);
            && ("trace_id" in strs ==> k < |g.warm| && g.warm[k] == strs["trace_id"])
            && ("trace_id" !in strs && "service" in strs ==> k < |g.warm| && g.warm[k] == strs["service"])
  {
    var rows := BatchRows(parse, lines);
    assert rows[..|lines|] == rows;
    WarmsCount(parse, lines, |lines|);
    WarmsCount(parse, lines, i);
    if rows[i].warm.Some? { WarmsPosition(rows, i); }
  }

  /** The planes after `blocks` whole blocks and the first `planes` planes of the next. */
  ghost predicate PlanesUpTo(bytes: seq<u8>, rows: seq<StoredRow>, blocks: nat, planes: nat) {
    IsPlanes(bytes) &&
    forall s, p, r | 0 <= s < SLOTS && 0 <= p < PLANES && 0 <= r < ROWS ::
      Cell(bytes, s, p, r) ==
      ((r / 64 < blocks || (r / 64 == blocks && p < planes)) && Expected(rows, s, p, r))
  }

  /** One block's buffer: the values of its rows, zero past the end of the batch. */
  ghost predicate IsBuffer(buf: seq<u64>, values: seq<u64>, block: nat) {
    |buf| == 64 && forall i | 0 <= i < 64 :: buf[i] == if 64 * block + i < |values| then values[64 * block + i] else 0
  }

  /** A block's buffer when its first `n` rows have been filled in. */
  ghost predicate PartBuffer(buf: seq<u64>, values: seq<u64>, block: nat, n: nat) {
    && |buf| == 64 && n <= 64 && 64 * block + n <= |values|
    && (forall i | 0 <= i < n :: buf[i] == values[64 * block + i])
    && (forall i | n <= i < 64 :: buf[i] == 0)
  }

  lemma PartBufferStep(buf: seq<u64>, values: seq<u64>, block: nat, n: nat, v: u64)
    requires PartBuffer(buf, values, block, n) && n < 64 && 64 * block + n < |values| && v == values[64 * block + n]
    ensures PartBuffer(buf[n := v], values, block, n + 1)
  {
  }

  lemma PartBufferDone(buf: seq<u64>, values: seq<u64>, block: nat, n: nat)
    requires PartBuffer(buf, values, block, n) && (n == 64 || 64 * block + n == |values|)
    ensures IsBuffer(buf, values, block)
  {
  }

  /** Both buffers of a block, filled up to row `n`. */
  ghost predicate BuffersHold(st: seq<u64>, la: seq<u64>, rows: seq<StoredRow>, block: nat, n: nat) {
    PartBuffer(st, Statuses(rows), block, n) && PartBuffer(la, Latencies(rows), block, n)
  }

  lemma BuffersStep(st: seq<u64>, la: seq<u64>, rows: seq<StoredRow>, block: nat, n: nat)
    requires BuffersHold(st, la, rows, block, n) && n < 64 && 64 * block + n < |rows|
    ensures var row := rows[64 * block + n];
            BuffersHold(st[n := row.status], la[n := row.latency], rows, block, n + 1)
  {
    PartBufferStep(st, Statuses(rows), block, n, rows[64 * block + n].status);
    PartBufferStep(la, Latencies(rows), block, n, rows[64 * block + n].latency);
  }

  lemma BuffersDone(st: seq<u64>, la: seq<u64>, rows: seq<StoredRow>, block: nat, n: nat)
    requires BuffersHold(st, la, rows, block, n) && (n == 64 || 64 * block + n == |rows|)
    ensures IsBuffer(st, Statuses(rows), block) && IsBuffer(la, Latencies(rows), block)
  {
    PartBufferDone(st, Statuses(rows), block, n);
    PartBufferDone(la, Latencies(rows), block, n);
  }

  lemma ZeroPlanes(rows: seq<StoredRow>)
    ensures PlanesUpTo(Zeros(), rows, 0, 0)
  {
    forall s, p, r | 0 <= s < SLOTS && 0 <= p < PLANES && 0 <= r < ROWS ensures !Cell(Zeros(), s, p, r) {
      BitOfZero(r % 8);
    }
  }

  /** Storing plane `plane` of a block for both columns extends the written region by that plane. */
  lemma StorePlane(bytes: seq<u8>, rows: seq<StoredRow>, block: nat, plane: nat, st: seq<u64>, la: seq<u64>)
    requires PlanesUpTo(bytes, rows, block, plane) && block < 1024 && plane < PLANES
    requires IsBuffer(st, Statuses(rows), block) && IsBuffer(la, Latencies(rows), block)
    ensures WordAddress(0, plane, block) + 8 <= |bytes| && WordAddress(1, plane, block) + 8 <= |bytes|
    ensures PlanesUpTo(StoreWord(StoreWord(bytes, WordAddress(0, plane, block), Slice(st)[plane]),
                                 WordAddress(1, plane, block), Slice(la)[plane]), rows, block, plane + 1)
  {
    WordInBounds(0, plane, block);
    WordInBounds(1, plane, block);
    var b1 := StoreWord(bytes, WordAddress(0, plane, block), Slice(st)[plane]);
    var b2 := StoreWord(b1, WordAddress(1, plane, block), Slice(la)[plane]);
    forall s, p, r | 0 <= s < SLOTS && 0 <= p < PLANES && 0 <= r < ROWS
      ensures Cell(b2, s, p, r) ==
              ((r / 64 < block || (r / 64 == block && p < plane + 1)) && Expected(rows, s, p, r))
    {
      StoreWordCells(bytes, 0, plane, block, Slice(st)[plane], s, p, r);
      StoreWordCells(b1, 1, plane, block, Slice(la)[plane], s, p, r);
      if p == plane && r / 64 == block {
        assert r == 64 * block + r % 64;
        assert Bit(Slice(st)[plane], r % 64) == Bit(st[r % 64], plane);
        assert Bit(Slice(la)[plane], r % 64) == Bit(la[r % 64], plane);
        BitOfZero(plane);
      }
    }
  }

  lemma PlanesRoll(bytes: seq<u8>, rows: seq<StoredRow>, blocks: nat)
    requires PlanesUpTo(bytes, rows, blocks, PLANES)
    ensures PlanesUpTo(bytes, rows, blocks + 1, 0)
  {
  }

  /** The metadata that rows feed: zone maps, filter and dictionary. */
  datatype Metadata = Metadata(zones: seq<ZoneMap>, filter: Filter, warm: seq<string>) {
    /** The updates one row makes. */
    function Record(hash: Hash, d: StoredRow, statusSlot: nat, latencySlot: nat): Metadata
      requires statusSlot < |zones| && latencySlot < |zones|
    {
      var z := zones[statusSlot := zones[statusSlot].Update(d.status)];
      var z' := z[latencySlot := z[latencySlot].Update(d.latency)];
      var w := d.warm;
      if w.Some? then Metadata(z', Add(hash, filter, w.value), warm + [w.value]) else Metadata(z', filter, warm)
    }
  }

  function NoMetadata(): Metadata { Metadata(seq(64, _ => EMPTY_ZONE), EmptyFilter(), []) }

  function RecordAll(hash: Hash, rows: seq<StoredRow>, n: nat): (m: Metadata)
    requires n <= |rows|
    ensures |m.zones| == 64
  {
    if n == 0 then NoMetadata() else RecordAll(hash, rows, n - 1).Record(hash, rows[n - 1], 0, 1)
  }

  /** The metadata after the first `n` rows. */
  function MetadataAfter(hash: Hash, rows: seq<StoredRow>, n: nat): (m: Metadata)
    requires n <= |rows|
    ensures |m.zones| == 64
  {
    RecordAll(hash, rows, n)
  }

  function MetadataOf(hash: Hash, rows: seq<StoredRow>): (m: Metadata)
    ensures |m.zones| == 64
  {
    MetadataAfter(hash, rows, |rows|)
  }

  lemma StatusesSnoc(rows: seq<StoredRow>, d: StoredRow)
    ensures Statuses(rows + [d]) == Statuses(rows) + [d.status]
    ensures Latencies(rows + [d]) == Latencies(rows) + [d.latency]
  {
  }

  ghost predicate ZonesHold(m: Metadata, rows: seq<StoredRow>) {
    && |m.zones| == 64
    && m.zones[0] == ZoneOf(Statuses(rows)) && m.zones[1] == ZoneOf(Latencies(rows))
    && forall c | 2 <= c < 64 :: m.zones[c] == EMPTY_ZONE
  }

  lemma RecordZones(hash: Hash, m: Metadata, rows: seq<StoredRow>, d: StoredRow)
    requires ZonesHold(m, rows)
    ensures ZonesHold(m.Record(hash, d, 0, 1), rows + [d])
  {
    StatusesSnoc(rows, d);
    ZoneSnoc(Statuses(rows), d.status);
    ZoneSnoc(Latencies(rows), d.latency);
  }

  lemma {:induction false} ZonesAfter(hash: Hash, rows: seq<StoredRow>, n: nat)
    requires n <= |rows|
    ensures ZonesHold(MetadataAfter(hash, rows, n), rows[..n])
  {
    if n == 0 {
      assert Statuses(rows[..0]) == [] && Latencies(rows[..0]) == [];
    } else {
      ZonesAfter(hash, rows, n - 1);
      RecordZones(hash, MetadataAfter(hash, rows, n - 1), rows[..n - 1], rows[n - 1]);
      assert rows[..n] == rows[..n - 1] + [rows[n - 1]];
    }
  }

  /** Row-by-row updates amount to the zone maps of the whole batch. */
  lemma ZonesAre(hash: Hash, rows: seq<StoredRow>)
    ensures MetadataOf(hash, rows).zones[0] == ZoneOf(Statuses(rows))
    ensures MetadataOf(hash, rows).zones[1] == ZoneOf(Latencies(rows))
    ensures forall c | 2 <= c < 64 :: MetadataOf(hash, rows).zones[c] == EMPTY_ZONE
  {
    ZonesAfter(hash, rows, |rows|);
    assert rows[..|rows|] == rows;
  }

  lemma {:induction false} StringsAfter(hash: Hash, rows: seq<StoredRow>, n: nat)
    requires n <= |rows|
    ensures MetadataAfter(hash, rows, n).warm == Warms(rows[..n])
    ensures MetadataAfter(hash, rows, n).filter == FilterOf(hash, Warms(rows[..n]))
  {
    if n > 0 {
      StringsAfter(hash, rows, n - 1);
      assert rows[..n][..n - 1] == rows[..n - 1];
      var w := rows[n - 1].warm;
      if w.Some? {
        assert Warms(rows[..n])[..|Warms(rows[..n - 1])|] == Warms(rows[..n - 1]);
      }
    }
  }

  /** Row-by-row updates amount to the dictionary of the whole batch, and the filter of that dictionary. */
  lemma StringsAre(hash: Hash, rows: seq<StoredRow>)
    ensures MetadataOf(hash, rows).warm == Warms(rows)
    ensures MetadataOf(hash, rows).filter == FilterOf(hash, Warms(rows))
  {
    StringsAfter(hash, rows, |rows|);
    assert rows[..|rows|] == rows;
  }

  lemma ZoneSnoc(values: seq<u64>, v: u64)
    ensures ZoneOf(values + [v]) == ZoneOf(values).Update(v)
  {
    assert (values + [v])[..|values|] == values;
  }

  /** The three used columns are present for exactly the first `blocks` blocks. */
  ghost predicate PresenceUpTo(m: seq<seq<u64>>, blocks: nat) {
    IsPresence(m) &&
    forall c, b | 0 <= c < 64 && 0 <= b < 1024 :: BlockPresent(m, c, b) <==> UsedColumn(c) && b < blocks
  }

  lemma NoPresence()
    ensures PresenceUpTo(NO_BLOCKS, 0)
  {
    forall c, b | 0 <= c < 64 && 0 <= b < 1024 ensures !BlockPresent(NO_BLOCKS, c, b) { NoBlocksPresent(c, b); }
  }

  lemma PresenceStep(m: seq<seq<u64>>, block: nat)
    requires PresenceUpTo(m, block)
    ensures PresenceUpTo(SetPresence(SetPresence(SetPresence(m, 0, block), 1, block), 32, block), block + 1)
  {
    var m1 := SetPresence(m, 0, block);
    var m2 := SetPresence(m1, 1, block);
    forall c, b | 0 <= c < 64 && 0 <= b < 1024
      ensures BlockPresent(SetPresence(m2, 32, block), c, b) <==> UsedColumn(c) && b < block + 1
    {
      SetPresenceSets(m, 0, block, c, b);
      SetPresenceSets(m1, 1, block, c, b);
      SetPresenceSets(m2, 32, block, c, b);
    }
  }

  function RowsIn(rows: seq<StoredRow>, blocks: nat): (n: nat)
    ensures n <= |rows|
  {
    if 64 * blocks < |rows| then 64 * blocks else |rows|
  }

  /** Everything a group holds after `blocks` blocks of `rows` have been transcoded. */
  ghost predicate Progress(hash: Hash, rows: seq<StoredRow>, blocks: nat, g: Group) {
    && PlanesUpTo(g.planes, rows, blocks, 0)
    && PresenceUpTo(g.presence, blocks)
    && Metadata(g.zones, g.filter, g.warm) == MetadataAfter(hash, rows, RowsIn(rows, blocks))
    && g.raw == [] && !g.compacted
  }

  lemma EmptyProgress(hash: Hash, rows: seq<StoredRow>)
    ensures Progress(hash, rows, 0,
              Group(seq(64, _ => EMPTY_ZONE), EmptyFilter(), NO_BLOCKS, Zeros(), [], [], false, 0))
  {
    ZeroPlanes(rows);
    NoPresence();
  }

  lemma FullProgress(hash: Hash, rows: seq<StoredRow>, blocks: nat, g: Group)
    requires Progress(hash, rows, blocks, g) && blocks == (|rows| + 63) / 64 && |rows| <= ROWS
    ensures Transcoded(hash, rows, g.(fingerprint := FINGERPRINT))
  {
    ZonesAre(hash, rows);
    StringsAre(hash, rows);
    assert rows[..|rows|] == rows;
    var m := MetadataOf(hash, rows);
    assert m.zones == g.zones && m.filter == g.filter && m.warm == g.warm;
    AllCells(g.planes, rows, blocks);
  }

  /** Writing every block writes every row. */
  lemma AllCells(bytes: seq<u8>, rows: seq<StoredRow>, blocks: nat)
    requires PlanesUpTo(bytes, rows, blocks, 0) && |rows| <= 64 * blocks
    ensures forall s, p, r | 0 <= s < SLOTS && 0 <= p < PLANES && 0 <= r < ROWS ::
              Cell(bytes, s, p, r) == Expected(rows, s, p, r)
  {
  }

  function Buffer(values: seq<u64>, block: nat): (buf: seq<u64>)
    ensures IsBuffer(buf, values, block)
  {
    seq(64, i requires 0 <= i < 64 => if 64 * block + i < |values| then values[64 * block + i] else 0)
  }

  lemma {:induction false} PlanesExist(rows: seq<StoredRow>, block: nat, plane: nat) returns (bytes: seq<u8>)
    requires block < 1024 || (block == 1024 && plane == 0)
    requires plane <= PLANES
    ensures PlanesUpTo(bytes, rows, block, plane)
    decreases block, plane
  {
    if plane > 0 {
      bytes := PlanesExist(rows, block, plane - 1);
      var st, la := Buffer(Statuses(rows), block), Buffer(Latencies(rows), block);
      StorePlane(bytes, rows, block, plane - 1, st, la);
      bytes := StoreWord(bytes, WordAddress(0, plane - 1, block), Slice(st)[plane - 1]);
      bytes := StoreWord(bytes, WordAddress(1, plane - 1, block), Slice(la)[plane - 1]);
    } else if block > 0 {
      bytes := PlanesExist(rows, block - 1, PLANES);
      PlanesRoll(bytes, rows, block - 1);
    } else {
      bytes := Zeros();
      ZeroPlanes(rows);
    }
  }

  lemma {:induction false} PresenceExists(blocks: nat) returns (m: seq<seq<u64>>)
    ensures PresenceUpTo(m, blocks)
  {
    if blocks == 0 {
      m := NO_BLOCKS;
      NoPresence();
    } else {
      m := PresenceExists(blocks - 1);
      PresenceStep(m, blocks - 1);
      m := SetPresence(SetPresence(SetPresence(m, 0, blocks - 1), 1, blocks - 1), 32, blocks - 1);
    }
  }

  /** Every batch that fits has a transcoding. */
  lemma TranscodingExists(hash: Hash, rows: seq<StoredRow>) returns (g: Group)
    requires |rows| <= ROWS
    ensures Transcoded(hash, rows, g)
  {
    var blocks := (|rows| + 63) / 64;
    var planes := PlanesExist(rows, blocks, 0);
    var presence := PresenceExists(blocks);
    var m := MetadataAfter(hash, rows, |rows|);
    g := Group(m.zones, m.filter, presence, planes, m.warm, [], false, FINGERPRINT);
    FullProgress(hash, rows, blocks, g);
    assert g.(fingerprint := FINGERPRINT) == g;
  }
}
