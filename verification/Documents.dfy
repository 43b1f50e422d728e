/** The documents of a parsed stream, the rows they contribute, and what a query asks of a row. */
module Documents {
  import opened Bits

  /** One document of the parsed stream; a field is `None` when its lookup failed. */
  datatype Document =
    | Broken
    | Document(status: Option<u64>, latency: Option<u64>, offset: u64)

  function OrZero(v: Option<u64>): u64 { if v.Some? then v.value else 0 }

  /** The two fields a query can see. */
  datatype Row = Row(status: u64, latency: u64)

  datatype Record = Record(status: u64, latency: u64, offset: u64) {
    function Fields(): Row { Row(status, latency) }
  }

  /** The error-free documents, in stream order, with absent fields read as zero. */
  function Records(docs: seq<Document>): (rs: seq<Record>) {
    if docs == [] then []
    else
      var d := docs[|docs| - 1];
      Records(docs[..|docs| - 1]) +
      if d.Broken? then [] else [Record(OrZero(d.status), OrZero(d.latency), d.offset)]
  }

  /** How many of the first `n` documents are error-free. */
  function GoodBefore(docs: seq<Document>, n: nat): nat
    requires n <= |docs|
  {
    if n == 0 then 0 else GoodBefore(docs, n - 1) + Digit(docs[n - 1].Document?)
  }

  lemma {:induction false} RecordsCount(docs: seq<Document>, n: nat)
    requires n <= |docs|
    ensures |Records(docs[..n])| == GoodBefore(docs, n)
  {
    if n > 0 {
      RecordsCount(docs, n - 1);
      assert docs[..n][..n - 1] == docs[..n - 1];
    }
  }

  /** Each error-free document has its own record, in order: its fields, or 0 for one that is missing. */
  lemma {:induction false} RecordOfDocument(docs: seq<Document>, j: nat, n: nat)
    requires j < n <= |docs| && docs[j].Document?
    ensures var d, k := docs[j], GoodBefore(docs, j);
            && k < |Records(docs[..n])|
            && Records(docs[..n])[k].offset == d.offset
            && Records(docs[..n])[k].status == (match d.status case Some(v) => v case None => 0)
            && Records(docs[..n])[k].latency == (match d.latency case Some(v) => v case None => 0)
  {
    assert docs[..n][..n - 1] == docs[..n - 1];
    if j < n - 1 {
      RecordOfDocument(docs, j, n - 1);
    } else {
      RecordsCount(docs, j);
    }
  }

  function FieldsOf(recs: seq<Record>): (rows: seq<Row>)
    ensures |rows| == |recs|
    ensures forall i | 0 <= i < |recs| :: rows[i] == recs[i].Fields()
  {
    seq(|recs|, i requires 0 <= i < |recs| => recs[i].Fields())
  }

  function RowsOf(docs: seq<Document>): seq<Row> { FieldsOf(Records(docs)) }

  /** One more document extends the rows by what it contributes. */
  lemma RowsOfSnoc(docs: seq<Document>, n: nat)
    requires n < |docs|
    ensures RowsOf(docs[..n + 1]) ==
            RowsOf(docs[..n]) + if docs[n].Broken? then [] else [Row(OrZero(docs[n].status), OrZero(docs[n].latency))]
  {
    assert docs[..n + 1][..n] == docs[..n];
  }

  /** `status == s AND latency > t`, decided on the fields themselves or on
      their low `width` bits, which is all a scan of `width` planes can see. */
  datatype Criterion = Exact(s: u64, t: u64) | Truncated(width: nat, s: u64, t: u64) {
    predicate Accepts(r: Row) {
      match this
      case Exact(s, t) => r.status == s && r.latency > t
      case Truncated(w, s, t) => Trunc(r.status, w) == s && Trunc(r.latency, w) > t
    }
  }

  /** The reference answer: how many rows satisfy the query. */
  function Count(rows: seq<Row>, c: Criterion): nat {
    if rows == [] then 0 else Count(rows[..|rows| - 1], c) + Digit(c.Accepts(rows[|rows| - 1]))
  }

  lemma {:induction false} CountConcat(a: seq<Row>, b: seq<Row>, c: Criterion)
    ensures Count(a + b, c) == Count(a, c) + Count(b, c)
  {
    if b == [] {
      assert a + b == a;
    } else {
      CountConcat(a, b[..|b| - 1], c);
      assert (a + b)[..|a + b| - 1] == a + b[..|b| - 1];
    }
  }
}
