/** The two-pass query: bit-sliced scan, offset lookup, and materialisation of the original lines. */
module Reconstruct {
  import opened Bits
  import opened BitPlanes
  import opened Documents
  import opened Lines
  import opened Exporter

  /** Offsets of the accepted rows, in order. */
  function OffsetsWhere(rows: seq<Record>, c: Criterion): seq<u64> {
    if rows == [] then []
    else OffsetsWhere(rows[..|rows| - 1], c) + if c.Accepts(rows[|rows| - 1].Fields()) then [rows[|rows| - 1].offset] else []
  }

  lemma OffsetsSnoc(rows: seq<Record>, c: Criterion, k: nat)
    requires k < |rows|
    ensures OffsetsWhere(rows[..k + 1], c) ==
            OffsetsWhere(rows[..k], c) + if c.Accepts(rows[k].Fields()) then [rows[k].offset] else []
  {
    assert rows[..k + 1][..k] == rows[..k];
  }

  /** Bit `i` of a block's mask is the verdict on row `64 * b + i` of the file. */
  ghost predicate MaskOf(mask: u64, rows: seq<Record>, b: nat, c: Criterion)
    requires 64 * b + 64 <= |rows|
  {
    forall i | 0 <= i < 64 :: Bit(mask, i) == c.Accepts(rows[64 * b + i].Fields())
  }

  method ScanBlock(agb: seq<u64>, ghost idx: seq<u64>, b: nat, width: nat, s: u64, t: u64) returns (mask: u64)
    requires |agb| == 2 * |idx| && |idx| % 64 == 0 && 64 * b + 64 <= |idx|
    requires width <= 64 && s < Pow2(width) && t < Pow2(width)
    ensures MaskOf(mask, FileRows(agb, idx), b, Truncated(width, s, t))
  {
    var statusPlanes, latencyPlanes := agb[128 * b..128 * b + 64], agb[128 * b + 64..128 * b + 128];
    mask := MatchMask(statusPlanes, latencyPlanes, width, s, t);
    forall i | 0 <= i < 64 ensures Bit(mask, i) == Truncated(width, s, t).Accepts(FileRows(agb, idx)[64 * b + i].Fields()) {
      var k := 64 * b + i;
      assert k / 64 == b && k % 64 == i;
      assert FileRows(agb, idx)[k] == Record(RowValue(statusPlanes, i), RowValue(latencyPlanes, i), idx[k]);
    }
  }

  /** The rows of a mask, looked up in the index in ascending order. */
  method Lookup(mask: u64, idx: seq<u64>, b: nat, found: seq<u64>, ghost rows: seq<Record>, ghost c: Criterion)
    returns (offsets: seq<u64>)
    requires |rows| == |idx| && 64 * b + 64 <= |rows|
    requires forall k | 0 <= k < |rows| :: rows[k].offset == idx[k]
    requires MaskOf(mask, rows, b, c)
    requires found == OffsetsWhere(rows[..64 * b], c)
    ensures offsets == OffsetsWhere(rows[..64 * b + 64], c)
  {
    offsets := found;
    if mask != 0 {
      var i := 0;
      while i < 64
        invariant 0 <= i <= 64
        invariant offsets == OffsetsWhere(rows[..64 * b + i], c)
      {
        if Bit(mask, i) {
          offsets := offsets + [idx[64 * b + i]];
        }
        OffsetsSnoc(rows, c, 64 * b + i);
        i := i + 1;
      }
    } else {
      ghost var i := 0;
      while i < 64
        invariant 0 <= i <= 64
        invariant offsets == OffsetsWhere(rows[..64 * b + i], c)
      {
        BitOfZero(i);
        OffsetsSnoc(rows, c, 64 * b + i);
        i := i + 1;
      }
    }
  }

  /** Pass one and the offset lookup of pass two. The program runs it at width 8 with targets 200 and 100. */
  method Scan(agb: seq<u64>, idx: seq<u64>, numBlocks: nat, width: nat, s: u64, t: u64) returns (offsets: seq<u64>)
    requires |agb| == 128 * numBlocks && |idx| == 64 * numBlocks
    requires width <= 64 && s < Pow2(width) && t < Pow2(width)
    ensures offsets == OffsetsWhere(FileRows(agb, idx), Truncated(width, s, t))
  {
    offsets := [];
    ghost var rows := FileRows(agb, idx);
    assert rows[..0] == [];
    var b := 0;
    while b < numBlocks
      invariant 0 <= b <= numBlocks
      invariant offsets == OffsetsWhere(rows[..64 * b], Truncated(width, s, t))
    {
      var mask := ScanBlock(agb, idx, b, width, s, t);
      offsets := Lookup(mask, idx, b, offsets, rows, Truncated(width, s, t));
      b := b + 1;
    }
    assert rows[..64 * b] == rows;
  }

  /** Padding rows are never accepted, because no criterion accepts a latency of zero. */
  lemma {:induction false} PaddingNeverAccepted(recs: seq<Record>, rows: seq<Record>, c: Criterion)
    requires |recs| <= |rows|
    requires forall k | 0 <= k < |rows| :: rows[k] == Padded(recs, k)
    ensures OffsetsWhere(rows, c) == OffsetsWhere(recs, c)
  {
    if |rows| == |recs| {
      assert rows == recs;
    } else {
      PaddingNeverAccepted(recs, rows[..|rows| - 1], c);
      if c.Truncated? { TruncBounds(0, c.width); }
    }
  }

  /** Counting the accepted rows is counting the offsets found. */
  lemma {:induction false} CountIsOffsets(rows: seq<Record>, c: Criterion)
    ensures Count(FieldsOf(rows), c) == |OffsetsWhere(rows, c)|
  {
    if rows != [] {
      CountIsOffsets(rows[..|rows| - 1], c);
      assert FieldsOf(rows)[..|rows| - 1] == FieldsOf(rows[..|rows| - 1]);
    }
  }

  /** Padding rows never change a count. */
  lemma PaddingNeverCounts(recs: seq<Record>, rows: seq<Record>, c: Criterion)
    requires |recs| <= |rows|
    requires forall k | 0 <= k < |rows| :: rows[k] == Padded(recs, k)
    ensures Count(FieldsOf(rows), c) == Count(FieldsOf(recs), c)
  {
    PaddingNeverAccepted(recs, rows, c);
    CountIsOffsets(recs, c);
    CountIsOffsets(rows, c);
  }

  /** Counting over every row of the exported file is counting over the documents, at any scanned width. */
  lemma FileCountIsRecordCount(recs: seq<Record>, agb: seq<u64>, idx: seq<u64>, c: Criterion)
    requires Encodes(recs, agb, idx)
    ensures Count(FieldsOf(FileRows(agb, idx)), c) == Count(FieldsOf(recs), c)
  {
    PaddingNeverCounts(recs, FileRows(agb, idx), c);
  }

  /** A record the `width`-plane scan judges as the query does, stated on its fields:
      a true match fits its status in the width and keeps its latency above `t` when truncated,
      and a status that only looks like `s` when truncated comes with a truncated latency of at
      most `t`. */
  predicate Unambiguous(r: Record, width: nat, s: u64, t: u64) {
    && (r.status == s && r.latency > t ==> s < Pow2(width) && Trunc(r.latency, width) > t)
    && (r.status != s && Trunc(r.status, width) == s ==> Trunc(r.latency, width) <= t)
  }

  lemma AcceptedIffUnambiguous(r: Record, width: nat, s: u64, t: u64)
    ensures Truncated(width, s, t).Accepts(r.Fields()) == Exact(s, t).Accepts(r.Fields()) <==> Unambiguous(r, width, s, t)
  {
    TruncBounds(r.status, width);
    TruncBounds(r.latency, width);
  }

  lemma {:induction false} OffsetsAreRecords(recs: seq<Record>, c: Criterion, k: nat)
    requires k < |recs| && DistinctOffsets(recs)
    ensures recs[k].offset in OffsetsWhere(recs, c) <==> c.Accepts(recs[k].Fields())
  {
    var n := |recs| - 1;
    var init := recs[..n];
    if k < n {
      OffsetsAreRecords(init, c, k);
    } else {
      OffsetsComeFrom(init, c, recs[n].offset);
    }
  }

  lemma {:induction false} OffsetsComeFrom(recs: seq<Record>, c: Criterion, o: u64)
    requires forall k | 0 <= k < |recs| :: recs[k].offset != o
    ensures o !in OffsetsWhere(recs, c)
  {
    if recs != [] { OffsetsComeFrom(recs[..|recs| - 1], c, o); }
  }

  lemma {:induction false} OffsetsCongruent(recs: seq<Record>, c: Criterion, d: Criterion)
    requires forall k | 0 <= k < |recs| :: c.Accepts(recs[k].Fields()) == d.Accepts(recs[k].Fields())
    ensures OffsetsWhere(recs, c) == OffsetsWhere(recs, d)
  {
    if recs != [] { OffsetsCongruent(recs[..|recs| - 1], c, d); }
  }

  ghost predicate DistinctOffsets(recs: seq<Record>) {
    forall i, j | 0 <= i < j < |recs| :: recs[i].offset != recs[j].offset
  }

  /** Scanning `width` planes of an exported file is judging its records by their low bits. */
  lemma FileScan(recs: seq<Record>, agb: seq<u64>, idx: seq<u64>, c: Criterion)
    requires Encodes(recs, agb, idx)
    ensures OffsetsWhere(FileRows(agb, idx), c) == OffsetsWhere(recs, c)
  {
    PaddingNeverAccepted(recs, FileRows(agb, idx), c);
  }

  /** The scan returns the offsets of the records satisfying the query exactly when
      no record is ambiguous at the scanned width. */
  lemma ScanExactIff(recs: seq<Record>, agb: seq<u64>, idx: seq<u64>, width: nat, s: u64, t: u64)
    requires Encodes(recs, agb, idx) && DistinctOffsets(recs)
    ensures OffsetsWhere(FileRows(agb, idx), Truncated(width, s, t)) == OffsetsWhere(recs, Exact(s, t))
            <==> forall k | 0 <= k < |recs| :: Unambiguous(recs[k], width, s, t)
  {
    FileScan(recs, agb, idx, Truncated(width, s, t));
    TruncatedExactIff(recs, width, s, t);
  }

  lemma TruncatedExactIff(recs: seq<Record>, width: nat, s: u64, t: u64)
    requires DistinctOffsets(recs)
    ensures OffsetsWhere(recs, Truncated(width, s, t)) == OffsetsWhere(recs, Exact(s, t))
            <==> forall k | 0 <= k < |recs| :: Unambiguous(recs[k], width, s, t)
  {
    var c, d := Truncated(width, s, t), Exact(s, t);
    forall k | 0 <= k < |recs|
      ensures c.Accepts(recs[k].Fields()) == d.Accepts(recs[k].Fields()) <==> Unambiguous(recs[k], width, s, t)
      ensures recs[k].offset in OffsetsWhere(recs, c) <==> c.Accepts(recs[k].Fields())
      ensures recs[k].offset in OffsetsWhere(recs, d) <==> d.Accepts(recs[k].Fields())
    {
      AcceptedIffUnambiguous(recs[k], width, s, t);
      OffsetsAreRecords(recs, c, k);
      OffsetsAreRecords(recs, d, k);
    }
    if forall k | 0 <= k < |recs| :: Unambiguous(recs[k], width, s, t) {
      OffsetsCongruent(recs, c, d);
    }
  }

  /** Records whose fields fit in the scanned width are never ambiguous. */
  lemma ScanExactWhenNarrow(recs: seq<Record>, agb: seq<u64>, idx: seq<u64>, width: nat, s: u64, t: u64)
    requires Encodes(recs, agb, idx)
    requires forall k | 0 <= k < |recs| :: recs[k].status < Pow2(width) && recs[k].latency < Pow2(width)
    ensures OffsetsWhere(FileRows(agb, idx), Truncated(width, s, t)) == OffsetsWhere(recs, Exact(s, t))
  {
    FileScan(recs, agb, idx, Truncated(width, s, t));
    forall k | 0 <= k < |recs| ensures Truncated(width, s, t).Accepts(recs[k].Fields()) == Exact(s, t).Accepts(recs[k].Fields()) {
      TruncBounds(recs[k].status, width);
      TruncBounds(recs[k].latency, width);
    }
    OffsetsCongruent(recs, Truncated(width, s, t), Exact(s, t));
  }

  /** At width 8 a status of 456 reads as 200, so a record that does not satisfy the query is selected. */
  lemma TruncationCounterexample(agb: seq<u64>, idx: seq<u64>)
    requires Encodes([Record(456, 150, 7)], agb, idx)
    ensures OffsetsWhere(FileRows(agb, idx), Truncated(8, 200, 100)) == [7]
    ensures OffsetsWhere([Record(456, 150, 7)], Exact(200, 100)) == []
  {
    var recs := [Record(456, 150, 7)];
    Pow2Values();
    TruncIsMod(456, 8);
    TruncIsMod(150, 8);
    FileScan(recs, agb, idx, Truncated(8, 200, 100));
    assert recs[..0] == [];
  }

  /** `line` is the newline-free text at `offset`, ended by a newline or the end of the file. */
  ghost predicate LineAt(text: string, offset: nat, line: string) {
    && offset + |line| <= |text|
    && text[offset..offset + |line|] == line
    && '\n' !in line
    && (offset + |line| < |text| ==> text[offset + |line|] == '\n')
  }

  /** From an offset up to the next newline, or to the end of the file. */
  method Materialize(text: string, offset: nat) returns (line: string)
    requires offset <= |text|
    ensures LineAt(text, offset, line)
  {
    var end := offset;
    while end < |text| && text[end] != '\n'
      invariant offset <= end <= |text|
      invariant '\n' !in text[offset..end]
    {
      assert text[offset..end + 1] == text[offset..end] + [text[end]];
      end := end + 1;
    }
    line := text[offset..end];
  }

  /** The byte offset at which line `j` starts. */
  function LineStart(lines: seq<string>, j: nat): nat
    requires j <= |lines|
  {
    |Serialize(lines[..j])|
  }

  lemma SerializePrefix(lines: seq<string>, j: nat)
    requires j <= |lines|
    ensures Serialize(lines[..j]) <= Serialize(lines)
  {
    assert lines == lines[..j] + lines[j..];
    SerializeConcat(lines[..j], lines[j..]);
  }

  lemma MiddleOf(text: string, before: string, line: string)
    requires before + line + "\n" <= text
    ensures text[|before|..|before| + |line|] == line && text[|before| + |line|] == '\n'
  {
    var upTo := before + line + "\n";
    assert text[..|upTo|] == upTo && upTo[|upTo| - 1] == '\n';
    assert upTo[|before|..|before| + |line|] == line;
  }

  /** The text between a line's start and its newline is that line, and only that. */
  lemma LineOccupies(lines: seq<string>, j: nat)
    requires j < |lines| && '\n' !in lines[j]
    ensures LineAt(Serialize(lines), LineStart(lines, j), lines[j])
  {
    var o := LineStart(lines, j);
    SerializePrefix(lines, j + 1);
    assert lines[..j + 1][..j] == lines[..j];
    var upTo := Serialize(lines[..j]) + lines[j] + "\n";
    assert Serialize(lines[..j + 1]) == upTo;
    MiddleOf(Serialize(lines), Serialize(lines[..j]), lines[j]);
  }

  /** Document `j` was parsed from line `j`, and its offset is where that line starts. */
  ghost predicate ParsedFrom(docs: seq<Document>, lines: seq<string>) {
    && |docs| == |lines|
    && forall j | 0 <= j < |docs| ::
         '\n' !in lines[j] && (docs[j].Document? ==> docs[j].offset == LineStart(lines, j))
  }

  predicate Wanted(d: Document, c: Criterion) {
    d.Document? && c.Accepts(Row(OrZero(d.status), OrZero(d.latency)))
  }

  /** The lines of the first `n` documents that the criterion accepts. */
  function WantedLines(docs: seq<Document>, lines: seq<string>, c: Criterion, n: nat): seq<string>
    requires |docs| == |lines| && n <= |docs|
  {
    if n == 0 then []
    else WantedLines(docs, lines, c, n - 1) + if Wanted(docs[n - 1], c) then [lines[n - 1]] else []
  }

  predicate DocUnambiguous(d: Document, width: nat, s: u64, t: u64) {
    d.Document? ==> Unambiguous(Record(OrZero(d.status), OrZero(d.latency), d.offset), width, s, t)
  }

  ghost predicate AllUnambiguous(docs: seq<Document>, width: nat, s: u64, t: u64) {
    forall j | 0 <= j < |docs| :: DocUnambiguous(docs[j], width, s, t)
  }

  /** After `n` documents, counting whole fields and counting low bits give the same number. */
  ghost predicate CountsAgree(docs: seq<Document>, width: nat, s: u64, t: u64, n: nat)
    requires n <= |docs|
  {
    Count(RowsOf(docs[..n]), Exact(s, t)) == Count(RowsOf(docs[..n]), Truncated(width, s, t))
  }

  lemma CountsAgreeStep(docs: seq<Document>, width: nat, s: u64, t: u64, n: nat)
    requires n < |docs| && CountsAgree(docs, width, s, t, n)
    ensures CountsAgree(docs, width, s, t, n + 1) <==> DocUnambiguous(docs[n], width, s, t)
  {
    CountsStep(docs, n, Exact(s, t));
    CountsStep(docs, n, Truncated(width, s, t));
    var d := docs[n];
    AcceptedIffUnambiguous(
      if d.Document? then Record(OrZero(d.status), OrZero(d.latency), d.offset) else Record(0, 0, 0), width, s, t);
  }

  lemma {:induction false} UnambiguousCountsAgree(docs: seq<Document>, width: nat, s: u64, t: u64, n: nat)
    requires n <= |docs| && AllUnambiguous(docs, width, s, t)
    ensures CountsAgree(docs, width, s, t, n)
  {
    if n > 0 {
      UnambiguousCountsAgree(docs, width, s, t, n - 1);
      CountsAgreeStep(docs, width, s, t, n - 1);
    }
  }

  /** The two counts agree at every point of the stream exactly when no document is ambiguous. */
  lemma CountsAgreeIff(docs: seq<Document>, width: nat, s: u64, t: u64)
    ensures (forall n | 0 <= n <= |docs| :: CountsAgree(docs, width, s, t, n)) <==> AllUnambiguous(docs, width, s, t)
  {
    if AllUnambiguous(docs, width, s, t) {
      forall n | 0 <= n <= |docs| ensures CountsAgree(docs, width, s, t, n) {
        UnambiguousCountsAgree(docs, width, s, t, n);
      }
    }
    if forall n | 0 <= n <= |docs| :: CountsAgree(docs, width, s, t, n) {
      forall j | 0 <= j < |docs| ensures DocUnambiguous(docs[j], width, s, t) {
        assert CountsAgree(docs, width, s, t, j) && CountsAgree(docs, width, s, t, j + 1);
        CountsAgreeStep(docs, width, s, t, j);
      }
    }
  }

  lemma CountsStep(docs: seq<Document>, n: nat, c: Criterion)
    requires n < |docs|
    ensures Count(RowsOf(docs[..n + 1]), c) == Count(RowsOf(docs[..n]), c) + Digit(Wanted(docs[n], c))
  {
    RowsOfSnoc(docs, n);
    var rows := RowsOf(docs[..n]);
    if docs[n].Document? {
      var r := Row(OrZero(docs[n].status), OrZero(docs[n].latency));
      assert (rows + [r])[..|rows|] == rows;
    } else {
      assert rows + [] == rows;
    }
  }

  /** Documents whose fields are absent or fit in the scanned width are never ambiguous. */
  lemma NarrowIsUnambiguous(docs: seq<Document>, width: nat, s: u64, t: u64)
    requires forall j | 0 <= j < |docs| && docs[j].Document? ::
               OrZero(docs[j].status) < Pow2(width) && OrZero(docs[j].latency) < Pow2(width)
    ensures AllUnambiguous(docs, width, s, t)
  {
    forall j | 0 <= j < |docs| && docs[j].Document? ensures DocUnambiguous(docs[j], width, s, t)
    {
      TruncBounds(OrZero(docs[j].status), width);
      TruncBounds(OrZero(docs[j].latency), width);
    }
  }

  /** With no ambiguous document, the lines selected at the scanned width are the lines the query asks for. */
  lemma {:induction false} WantedLinesExact(
    docs: seq<Document>, lines: seq<string>, width: nat, s: u64, t: u64, n: nat)
    requires |docs| == |lines| && n <= |docs| && AllUnambiguous(docs[..n], width, s, t)
    ensures WantedLines(docs, lines, Truncated(width, s, t), n) == WantedLines(docs, lines, Exact(s, t), n)
  {
    if n > 0 {
      assert forall j | 0 <= j < n :: docs[j] == docs[..n][j];
      WantedLinesExact(docs, lines, width, s, t, n - 1);
      var d := docs[n - 1];
      if d.Document? {
        AcceptedIffUnambiguous(Record(OrZero(d.status), OrZero(d.latency), d.offset), width, s, t);
      }
    }
  }

  lemma LineAtUnique(text: string, offset: nat, a: string, b: string)
    requires LineAt(text, offset, a) && LineAt(text, offset, b)
    ensures a == b
  {
    assert forall k | 0 <= k < |a| :: a[k] == text[offset + k];
    assert forall k | 0 <= k < |b| :: b[k] == text[offset + k];
  }

  /** Offsets and lines that belong together, position by position. */
  ghost predicate Named(text: string, offsets: seq<u64>, wanted: seq<string>) {
    |offsets| == |wanted| && forall i | 0 <= i < |offsets| :: LineAt(text, offsets[i], wanted[i])
  }

  lemma NamedSnoc(text: string, offsets: seq<u64>, wanted: seq<string>, o: u64, line: string)
    requires Named(text, offsets, wanted) && LineAt(text, o, line)
    ensures Named(text, offsets + [o], wanted + [line])
  {
  }

  lemma WantedOffsetsSnoc(docs: seq<Document>, c: Criterion, n: nat)
    requires n < |docs|
    ensures OffsetsWhere(Records(docs[..n + 1]), c) ==
            OffsetsWhere(Records(docs[..n]), c) + if Wanted(docs[n], c) then [docs[n].offset] else []
  {
    assert docs[..n + 1][..n] == docs[..n];
    var before, d := Records(docs[..n]), docs[n];
    if d.Document? {
      var r := Record(OrZero(d.status), OrZero(d.latency), d.offset);
      assert (before + [r])[..|before|] == before;
    } else {
      assert before + [] == before;
    }
  }

  /** The selected offsets name exactly the wanted lines. */
  lemma {:induction false} OffsetsNameLines(docs: seq<Document>, lines: seq<string>, c: Criterion, n: nat)
    requires ParsedFrom(docs, lines) && n <= |docs|
    ensures Named(Serialize(lines), OffsetsWhere(Records(docs[..n]), c), WantedLines(docs, lines, c, n))
  {
    if n > 0 {
      OffsetsNameLines(docs, lines, c, n - 1);
      WantedOffsetsSnoc(docs, c, n - 1);
      if Wanted(docs[n - 1], c) {
        LineOccupies(lines, n - 1);
        NamedSnoc(Serialize(lines), OffsetsWhere(Records(docs[..n - 1]), c), WantedLines(docs, lines, c, n - 1),
                  docs[n - 1].offset, lines[n - 1]);
      }
    }
  }

  /** Pass two's materialisation loop. */
  method MaterializeAll(text: string, offsets: seq<u64>, ghost wanted: seq<string>) returns (found: seq<string>)
    requires Named(text, offsets, wanted)
    ensures found == wanted
  {
    found := [];
    var i := 0;
    while i < |offsets|
      invariant 0 <= i <= |offsets|
      invariant found == wanted[..i]
    {
      assert LineAt(text, offsets[i], wanted[i]);
      var line := Materialize(text, offsets[i]);
      LineAtUnique(text, offsets[i], line, wanted[i]);
      found := found + [line];
      i := i + 1;
    }
  }

  /** The offsets found in an exported file name the wanted lines of the text it was exported from. */
  lemma FileNamesLines(docs: seq<Document>, lines: seq<string>, agb: seq<u64>, idx: seq<u64>, c: Criterion)
    requires ParsedFrom(docs, lines) && Encodes(Records(docs), agb, idx)
    ensures Named(Serialize(lines), OffsetsWhere(FileRows(agb, idx), c), WantedLines(docs, lines, c, |docs|))
  {
    FileScan(Records(docs), agb, idx, c);
    OffsetsNameLines(docs, lines, c, |docs|);
    assert docs[..|docs|] == docs;
  }

  /** The whole two-pass query over a file whose documents each start a line. */
  method ReconstructQuery(docs: seq<Document>, lines: seq<string>, width: nat, s: u64, t: u64)
    returns (found: seq<string>)
    requires ParsedFrom(docs, lines)
    requires width <= 64 && s < Pow2(width) && t < Pow2(width)
    ensures found == WantedLines(docs, lines, Truncated(width, s, t), |docs|)
    ensures AllUnambiguous(docs, width, s, t) ==> found == WantedLines(docs, lines, Exact(s, t), |docs|)
  {
    var agb, idx, _, numBlocks := ConvertJsonToAgb(docs);
    var offsets := Scan(agb, idx, numBlocks, width, s, t);
    FileNamesLines(docs, lines, agb, idx, Truncated(width, s, t));
    if AllUnambiguous(docs, width, s, t) {
      assert docs[..|docs|] == docs;
      WantedLinesExact(docs, lines, width, s, t, |docs|);
    }
    found := MaterializeAll(Serialize(lines), offsets, WantedLines(docs, lines, Truncated(width, s, t), |docs|));
  }
}
