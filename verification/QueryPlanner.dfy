/** Row-group pruning: a predicate is tested against zone maps and the Bloom
    filter, and a group for which the test fails is skipped. */
module QueryPlanner {
  import opened Bits
  import opened Storage
  import opened Ingest
  import opened Adaptive

  datatype Predicate =
    | And(left: Child, right: Child)
    | Gt(field: string, bound: u64)
    | Eq(field: string, num: u64, str: string)

  /** A child pointer of a conjunction, which may be null. */
  datatype Child = Absent | Present(node: Predicate)

  /** False means the group can be skipped. */
  predicate EvaluatePruning(hash: Hash, zones: seq<ZoneMap>, filter: Filter, p: Predicate) {
    match p
    case And(left, right) =>
      && (left.Present? ==> EvaluatePruning(hash, zones, filter, left.node))
      && (right.Present? ==> EvaluatePruning(hash, zones, filter, right.node))
    case Gt(field, bound) =>
      var slot := if field == "latency" then 1 else 0;
      !(slot < |zones| && zones[slot].hasValues && zones[slot].max <= bound)
    case Eq(_, num, str) =>
      if str != "" then Contains(hash, filter, str)
      else !(0 < |zones| && zones[0].hasValues && (num < zones[0].min || num > zones[0].max))
  }

  predicate Keeps(hash: Hash, g: Group, p: Predicate) { EvaluatePruning(hash, g.zones, g.filter, p) }

  /** What a predicate means for one document. A missing child is no constraint. */
  predicate Holds(p: Predicate, d: Doc) {
    match p
    case And(left, right) =>
      && (left.Present? ==> Holds(left.node, d))
      && (right.Present? ==> Holds(right.node, d))
    case Gt(field, bound) => field in d.nums && d.nums[field] > bound
    case Eq(field, num, str) =>
      if str != "" then field in d.strs && d.strs[field] == str
      else field in d.nums && d.nums[field] == num
  }

  function StoredRows(docs: seq<Doc>): seq<StoredRow> {
    seq(|docs|, i requires 0 <= i < |docs| => RowOf(docs[i]))
  }

  /** The predicates whose pruning answer can be trusted. */
  predicate InDomain(p: Predicate) {
    match p
    case And(left, right) =>
      (left.Present? ==> InDomain(left.node)) && (right.Present? ==> InDomain(right.node))
    case Gt(field, _) => field == "status" || field == "latency"
    case Eq(field, _, str) => if str != "" then field == "trace_id" else field == "status"
  }

  /** The pruning answer for a batch, from the metadata transcoding gives it. */
  ghost predicate KeepsBatch(hash: Hash, docs: seq<Doc>, p: Predicate) {
    var m := MetadataOf(hash, StoredRows(docs));
    EvaluatePruning(hash, m.zones, m.filter, p)
  }

  /** `KeepsBatch` is the answer on any group that holds the batch. */
  lemma KeepsBatchIsKeeps(hash: Hash, docs: seq<Doc>, g: Group, p: Predicate)
    requires Transcoded(hash, StoredRows(docs), g)
    ensures Keeps(hash, g, p) == KeepsBatch(hash, docs, p)
  {
    var rows := StoredRows(docs);
    ZonesAre(hash, rows);
    StringsAre(hash, rows);
    assert g.zones == MetadataOf(hash, rows).zones;
  }

  /** Each document of a batch lies within the batch's zone maps, and its string lights the filter. */
  lemma DocumentCovered(hash: Hash, docs: seq<Doc>, i: nat)
    requires i < |docs|
    ensures var m := MetadataOf(hash, StoredRows(docs));
            && m.zones[0].hasValues && m.zones[0].min <= StatusOf(docs[i]) <= m.zones[0].max
            && m.zones[1].hasValues && m.zones[1].min <= LatencyOf(docs[i]) <= m.zones[1].max
            && (WarmOf(docs[i]).Some? ==> forall key | Collides(hash, WarmOf(docs[i]).value, key) :: Contains(hash, m.filter, key))
  {
    var rows := StoredRows(docs);
    assert rows[i] == RowOf(docs[i]);
    ZonesAre(hash, rows);
    StringsAre(hash, rows);
    ZoneExact(Statuses(rows));
    ZoneExact(Latencies(rows));
    assert Statuses(rows)[i] == StatusOf(docs[i]) && Latencies(rows)[i] == LatencyOf(docs[i]);
    if WarmOf(docs[i]).Some? {
      WarmsHold(rows, i);
      forall key | Collides(hash, WarmOf(docs[i]).value, key) ensures Contains(hash, FilterOf(hash, Warms(rows)), key) {
        CollisionContains(hash, Warms(rows), WarmOf(docs[i]).value, key);
      }
    }
  }

  /** What a predicate means for the values stored for a document: absent numbers are stored as zero,
      and a string test of any field is read against the one string that is recorded. */
  predicate HoldsStored(p: Predicate, d: Doc) {
    match p
    case And(left, right) =>
      && (left.Present? ==> HoldsStored(left.node, d))
      && (right.Present? ==> HoldsStored(right.node, d))
    case Gt(field, bound) => (if field == "latency" then LatencyOf(d) else StatusOf(d)) > bound
    case Eq(_, num, str) => if str != "" then WarmOf(d) == Some(str) else StatusOf(d) == num
  }

  /** In the domain, what holds of a document holds of what is stored for it. */
  lemma {:induction false} HoldsAreStored(p: Predicate, d: Doc)
    requires InDomain(p) && Holds(p, d)
    ensures HoldsStored(p, d)
  {
    if p.And? {
      if p.left.Present? { HoldsAreStored(p.left.node, d); }
      if p.right.Present? { HoldsAreStored(p.right.node, d); }
    }
  }

  lemma LeafKeepsMatch(hash: Hash, docs: seq<Doc>, p: Predicate, i: nat)
    requires i < |docs| && !p.And? && HoldsStored(p, docs[i])
    ensures KeepsBatch(hash, docs, p)
  {
    DocumentCovered(hash, docs, i);
    if p.Eq? && p.str != "" {
      assert Collides(hash, p.str, p.str);
    }
  }

  lemma {:induction false} BatchPruningSound(hash: Hash, docs: seq<Doc>, p: Predicate, i: nat)
    requires i < |docs| && HoldsStored(p, docs[i])
    ensures KeepsBatch(hash, docs, p)
    decreases p
  {
    if p.And? {
      if p.left.Present? { BatchPruningSound(hash, docs, p.left.node, i); }
      if p.right.Present? { BatchPruningSound(hash, docs, p.right.node, i); }
    } else {
      LeafKeepsMatch(hash, docs, p, i);
    }
  }

  /** Whatever the tree, a skipped group stores no row that satisfies the predicate. */
  lemma StoredPruningSound(hash: Hash, docs: seq<Doc>, g: Group, p: Predicate)
    requires Transcoded(hash, StoredRows(docs), g) && !Keeps(hash, g, p)
    ensures forall i | 0 <= i < |docs| :: !HoldsStored(p, docs[i])
  {
    KeepsBatchIsKeeps(hash, docs, g, p);
    forall i | 0 <= i < |docs| ensures !HoldsStored(p, docs[i]) {
      if HoldsStored(p, docs[i]) { BatchPruningSound(hash, docs, p, i); }
    }
  }

  /** Whatever the tree, a document that satisfies an in-domain predicate is never in a skipped group. */
  lemma PruningSound(hash: Hash, docs: seq<Doc>, g: Group, p: Predicate)
    requires Transcoded(hash, StoredRows(docs), g) && InDomain(p) && !Keeps(hash, g, p)
    ensures forall i | 0 <= i < |docs| :: !Holds(p, docs[i])
  {
    StoredPruningSound(hash, docs, g, p);
    forall i | 0 <= i < |docs| ensures !Holds(p, docs[i]) {
      if Holds(p, docs[i]) { HoldsAreStored(p, docs[i]); }
    }
  }

  /** A comparison keeps exactly the groups in which some stored value exceeds the bound: the latency for
      `latency`, the status for any other field. */
  lemma GtKeepsIff(hash: Hash, docs: seq<Doc>, g: Group, field: string, bound: u64)
    requires Transcoded(hash, StoredRows(docs), g) && docs != []
    ensures field == "latency" ==>
              (Keeps(hash, g, Gt(field, bound)) <==> exists i :: 0 <= i < |docs| && LatencyOf(docs[i]) > bound)
    ensures field != "latency" ==>
              (Keeps(hash, g, Gt(field, bound)) <==> exists i :: 0 <= i < |docs| && StatusOf(docs[i]) > bound)
  {
    var rows := StoredRows(docs);
    var values := if field == "latency" then Latencies(rows) else Statuses(rows);
    ZoneExact(values);
    assert forall i | 0 <= i < |docs| ::
        values[i] == if field == "latency" then LatencyOf(docs[i]) else StatusOf(docs[i]);
    if ZoneOf(values).max > bound {
      var i :| 0 <= i < |values| && values[i] == ZoneOf(values).max;
    }
  }

  /** A numeric equality keeps exactly the groups whose stored statuses reach around the number. */
  lemma EqKeepsIff(hash: Hash, docs: seq<Doc>, g: Group, field: string, num: u64)
    requires Transcoded(hash, StoredRows(docs), g) && docs != []
    ensures Keeps(hash, g, Eq(field, num, "")) <==>
            exists i, j :: 0 <= i < |docs| && 0 <= j < |docs| && StatusOf(docs[i]) <= num <= StatusOf(docs[j])
  {
    var values := Statuses(StoredRows(docs));
    ZoneExact(values);
    assert forall i | 0 <= i < |docs| :: values[i] == StatusOf(docs[i]);
    var lo :| 0 <= lo < |values| && values[lo] == ZoneOf(values).min;
    var hi :| 0 <= hi < |values| && values[hi] == ZoneOf(values).max;
  }

  /** A string equality keeps exactly the groups whose dictionary strings own both bits of the literal. */
  lemma StringKeepsIff(hash: Hash, docs: seq<Doc>, g: Group, field: string, num: u64, str: string)
    requires Transcoded(hash, StoredRows(docs), g) && str != ""
    ensures Keeps(hash, g, Eq(field, num, str)) <==>
            && (exists i :: 0 <= i < |g.warm| && ProbeA(hash, str) in {ProbeA(hash, g.warm[i]), ProbeB(hash, g.warm[i])})
            && (exists i :: 0 <= i < |g.warm| && ProbeB(hash, str) in {ProbeA(hash, g.warm[i]), ProbeB(hash, g.warm[i])})
  {
    FilterBits(hash, g.warm, ProbeA(hash, str));
    FilterBits(hash, g.warm, ProbeB(hash, str));
  }

  /** A conjunction keeps exactly the groups that both of its children keep; a missing child keeps all. */
  lemma AndKeepsIff(hash: Hash, g: Group, left: Predicate, right: Predicate)
    ensures Keeps(hash, g, And(Present(left), Present(right))) <==> Keeps(hash, g, left) && Keeps(hash, g, right)
    ensures Keeps(hash, g, And(Present(left), Absent)) <==> Keeps(hash, g, left)
    ensures Keeps(hash, g, And(Absent, Present(right))) <==> Keeps(hash, g, right)
    ensures Keeps(hash, g, And(Absent, Absent))
  {
  }

  /** A transcoded group without rows is kept exactly without a string test, as a staged one is. */
  lemma EmptyKeptIff(hash: Hash, g: Group, p: Predicate)
    requires Transcoded(hash, StoredRows([]), g)
    ensures Keeps(hash, g, p) <==> !HasStringTest(p)
  {
    var rows := StoredRows([]);
    assert rows == [] && Statuses(rows) == [] && Latencies(rows) == [] && Warms(rows) == [];
    StagedKeptIff(hash, g, p);
  }

  /** A predicate is trustworthy when no batch is skipped while one of its documents satisfies it. */
  ghost predicate Trustworthy(hash: Hash, p: Predicate) {
    forall docs: seq<Doc>, i: nat | i < |docs| && Holds(p, docs[i]) :: KeepsBatch(hash, docs, p)
  }

  /** Which leaves are trustworthy, decided by the leaf itself. Comparisons other than on status and
      latency consult the status zone; strings other than the trace id may not have been recorded. */
  ghost predicate TrustedLeaf(hash: Hash, p: Predicate)
    requires !p.And?
  {
    match p
    case Gt(field, bound) => field == "status" || field == "latency" || bound == ALL_ONES
    case Eq(field, _, str) =>
      if str == "" then field == "status"
      else field == "trace_id" || (field == "service" && forall t: string :: Collides(hash, t, str))
  }

  /** A document that defeats an untrusted leaf. */
  ghost function Witness(hash: Hash, p: Predicate): Doc
    requires !p.And? && !TrustedLeaf(hash, p)
  {
    match p
    case Gt(field, bound) => Doc(map[field := bound + 1], map[])
    case Eq(field, num, str) =>
      if str == "" then
        var status: u64 := if num == 0 then 1 else 0;
        Doc(map["status" := status, field := num], map[])
      else if field == "service" then
        var t: string :| !Collides(hash, t, str);
        Doc(map[], map["trace_id" := t, field := str])
      else Doc(map[], map[field := str])
  }

  /** The metadata of a one-document batch. */
  lemma OneDocument(hash: Hash, d: Doc)
    ensures var m := MetadataOf(hash, StoredRows([d]));
            && m.zones[0] == ZoneMap(true, StatusOf(d), StatusOf(d))
            && m.zones[1] == ZoneMap(true, LatencyOf(d), LatencyOf(d))
            && m.filter == FilterOf(hash, if WarmOf(d).Some? then [WarmOf(d).value] else [])
  {
    var rows := StoredRows([d]);
    assert rows == [RowOf(d)];
    ZonesAre(hash, rows);
    StringsAre(hash, rows);
    assert rows[..0] == [] && Warms([]) == [];
    assert Statuses(rows) == [StatusOf(d)];
    assert Latencies(rows) == [LatencyOf(d)];
    ZoneSnoc([], StatusOf(d));
    ZoneSnoc([], LatencyOf(d));
    assert [] + [StatusOf(d)] == [StatusOf(d)] && [] + [LatencyOf(d)] == [LatencyOf(d)];
  }

  lemma WitnessDefeats(hash: Hash, p: Predicate)
    requires !p.And? && !TrustedLeaf(hash, p)
    ensures Holds(p, Witness(hash, p)) && !KeepsBatch(hash, [Witness(hash, p)], p)
  {
    var d := Witness(hash, p);
    OneDocument(hash, d);
    if p.Eq? && p.str != "" {
      if p.field == "service" {
        SingletonFilter(hash, d.strs["trace_id"], p.str);
      } else {
        EmptyFilterRejects(hash, p.str);
      }
    }
  }

  /** A leaf can be trusted exactly when its own field and literal say so. */
  lemma TrustworthyIff(hash: Hash, p: Predicate)
    requires !p.And?
    ensures Trustworthy(hash, p) <==> TrustedLeaf(hash, p)
  {
    if TrustedLeaf(hash, p) {
      forall docs: seq<Doc>, i: nat | i < |docs| && Holds(p, docs[i]) ensures KeepsBatch(hash, docs, p) {
        if InDomain(p) {
          HoldsAreStored(p, docs[i]);
          LeafKeepsMatch(hash, docs, p, i);
        } else {
          DocumentCovered(hash, docs, i);
        }
      }
    } else {
      WitnessDefeats(hash, p);
      var docs := [Witness(hash, p)];
      assert Holds(p, docs[0]) && !KeepsBatch(hash, docs, p);
    }
  }

  /** `m'` covers everything `m` covers. */
  ghost predicate Grows(hash: Hash, m: Metadata, m': Metadata) {
    && |m.zones| == |m'.zones| == 64
    && (forall slot | 0 <= slot < 2 ::
          && m.zones[slot].hasValues && m'.zones[slot].hasValues
          && m'.zones[slot].min <= m.zones[slot].min && m.zones[slot].max <= m'.zones[slot].max)
    && (forall key :: Contains(hash, m.filter, key) ==> Contains(hash, m'.filter, key))
  }

  /** Pruning is monotone: what is kept stays kept as the metadata grows. */
  lemma {:induction false} GrowthKeeps(hash: Hash, m: Metadata, m': Metadata, p: Predicate)
    requires Grows(hash, m, m') && EvaluatePruning(hash, m.zones, m.filter, p)
    ensures EvaluatePruning(hash, m'.zones, m'.filter, p)
    decreases p
  {
    if p.And? {
      if p.left.Present? { GrowthKeeps(hash, m, m', p.left.node); }
      if p.right.Present? { GrowthKeeps(hash, m, m', p.right.node); }
    }
  }

  lemma BatchGrows(hash: Hash, docs: seq<Doc>, i: nat)
    requires i < |docs|
    ensures Grows(hash, MetadataOf(hash, StoredRows([docs[i]])), MetadataOf(hash, StoredRows(docs)))
  {
    var d := docs[i];
    var m, m' := MetadataOf(hash, StoredRows([d])), MetadataOf(hash, StoredRows(docs));
    OneDocument(hash, d);
    DocumentCovered(hash, docs, i);
    forall key | Contains(hash, m.filter, key) ensures Contains(hash, m'.filter, key) {
      EmptyFilterRejects(hash, key);
      if WarmOf(d).Some? { SingletonFilter(hash, WarmOf(d).value, key); }
    }
  }

  /** Any tree: pruning never loses a document exactly when it never loses one that is alone in its batch. */
  lemma TreeTrustworthyIff(hash: Hash, p: Predicate)
    ensures Trustworthy(hash, p) <==> forall d | Holds(p, d) :: KeepsBatch(hash, [d], p)
  {
    if Trustworthy(hash, p) {
      forall d | Holds(p, d) ensures KeepsBatch(hash, [d], p) { assert [d][0] == d; }
    } else {
      var docs: seq<Doc>, i: nat :| i < |docs| && Holds(p, docs[i]) && !KeepsBatch(hash, docs, p);
      BatchGrows(hash, docs, i);
      if KeepsBatch(hash, [docs[i]], p) {
        GrowthKeeps(hash, MetadataOf(hash, StoredRows([docs[i]])), MetadataOf(hash, StoredRows(docs)), p);
      }
    }
  }

  predicate HasStringTest(p: Predicate) {
    match p
    case And(left, right) =>
      (left.Present? && HasStringTest(left.node)) || (right.Present? && HasStringTest(right.node))
    case Gt(_, _) => false
    case Eq(_, _, str) => str != ""
  }

  /** A staged group, whose lines are not yet transcoded, is kept exactly by the predicates
      without a string test; one with a string test skips it whatever its lines contain. */
  lemma {:induction false} StagedKeptIff(hash: Hash, g: Group, p: Predicate)
    requires Staged(g)
    ensures Keeps(hash, g, p) <==> !HasStringTest(p)
    decreases p
  {
    match p
    case And(left, right) =>
      if left.Present? { StagedKeptIff(hash, g, left.node); }
      if right.Present? { StagedKeptIff(hash, g, right.node); }
    case Gt(_, _) =>
    case Eq(_, _, str) =>
      if str != "" { EmptyFilterRejects(hash, str); }
  }
}
