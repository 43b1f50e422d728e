/** The live-tail subscription: a second reader of the synthesised query text, and how its
    filter compares with the dispatcher's. */
module LiveTail {
  import opened Bits
  import opened Documents
  import opened Text
  import opened QueryText

  /** The digits captured by `key\s*op\s*(\d+)` anchored at the start of `s`. */
  function CaptureHere(s: string, key: string, op: string): (r: Option<string>)
    ensures r.Some? ==> forall i | 0 <= i < |r.value| :: IsDigit(r.value[i])
  {
    if !StartsWith(s, key) then None
    else
      var t := SkipSpaces(s[|key|..]);
      if !StartsWith(t, op) then None
      else
        var v := SkipSpaces(t[|op|..]);
        var n := LeadingDigits(v);
        if n == 0 then None else Some(v[..n])
  }

  /** The capture of the leftmost match. */
  function Capture(s: string, key: string, op: string): (r: Option<string>)
    ensures r.Some? ==> forall i | 0 <= i < |r.value| :: IsDigit(r.value[i])
  {
    var here := CaptureHere(s, key, op);
    if here.Some? || s == "" then here else Capture(s[1..], key, op)
  }

  predicate Digits(d: string) { d != "" && forall i | 0 <= i < |d| :: IsDigit(d[i]) }

  /** The pattern, spelled out: the key, white space, the operator, white space, and all the digits there. */
  ghost predicate Matched(s: string, key: string, op: string, d: string, a: string, b: string, rest: string) {
    && s == key + (a + (op + (b + (d + rest))))
    && AllWhite(a) && AllWhite(b) && Digits(d) && (rest == "" || !IsDigit(rest[0]))
  }

  ghost predicate Matches(s: string, key: string, op: string, d: string) {
    exists a, b, rest :: Matched(s, key, op, d, a, b, rest)
  }

  lemma MatchedCaptures(s: string, key: string, op: string, d: string, a: string, b: string, rest: string)
    requires op != "" && !IsSpace(op[0]) && Matched(s, key, op, d, a, b, rest)
    ensures CaptureHere(s, key, op) == Some(d)
  {
    var v := d + rest;
    var t := op + (b + v);
    PrefixOfSum(key, a + t);
    SkipsWhite(a, t);
    PrefixOfSum(op, b + v);
    assert IsDigit(d[0]) && v[0] == d[0];
    SkipsWhite(b, v);
    LeadingDigitsOf(d, rest);
    PrefixOfSum(d, rest);
  }

  lemma CapturedMatches(s: string, key: string, op: string)
    requires CaptureHere(s, key, op).Some?
    ensures Matches(s, key, op, CaptureHere(s, key, op).value)
  {
    var s1 := s[|key|..];
    var a := SkipTakesWhite(s1);
    var t := SkipSpaces(s1);
    var t1 := t[|op|..];
    var b := SkipTakesWhite(t1);
    var v := SkipSpaces(t1);
    var n := LeadingDigits(v);
    var d, rest := v[..n], v[n..];
    assert v == d + rest;
    assert t1 == b + (d + rest);
    assert t == op + t1;
    assert s1 == a + (op + (b + (d + rest)));
    assert s == key + s1;
    assert Matched(s, key, op, d, a, b, rest);
  }

  /** The anchored pattern captures exactly what it should. */
  lemma CaptureHereIff(s: string, key: string, op: string, d: string)
    requires op != "" && !IsSpace(op[0])
    ensures CaptureHere(s, key, op) == Some(d) <==> Matches(s, key, op, d)
  {
    if Matches(s, key, op, d) {
      var a, b, rest :| Matched(s, key, op, d, a, b, rest);
      MatchedCaptures(s, key, op, d, a, b, rest);
    }
    if CaptureHere(s, key, op) == Some(d) { CapturedMatches(s, key, op); }
  }

  /** The search captures at the leftmost place where the pattern matches. */
  lemma {:induction false} CaptureIsLeftmost(s: string, key: string, op: string, p: nat)
    requires p <= |s| && CaptureHere(s[p..], key, op).Some?
    requires forall q | 0 <= q < p :: CaptureHere(s[q..], key, op).None?
    ensures Capture(s, key, op) == CaptureHere(s[p..], key, op)
  {
    assert s[0..] == s;
    if p > 0 {
      assert CaptureHere(s[0..], key, op).None?;
      assert s[1..][p - 1..] == s[p..];
      forall q | 0 <= q < p - 1 ensures CaptureHere(s[1..][q..], key, op).None? { assert s[1..][q..] == s[q + 1..]; }
      CaptureIsLeftmost(s[1..], key, op, p - 1);
    }
  }

  /** And captures nothing when it matches nowhere. */
  lemma {:induction false} CaptureNowhere(s: string, key: string, op: string)
    requires forall q | 0 <= q <= |s| :: CaptureHere(s[q..], key, op).None?
    ensures Capture(s, key, op) == None
  {
    assert s[0..] == s;
    if s != "" {
      forall q | 0 <= q <= |s[1..]| ensures CaptureHere(s[1..][q..], key, op).None? { assert s[1..][q..] == s[q + 1..]; }
      CaptureNowhere(s[1..], key, op);
    }
  }

  datatype Reading = Failed | Read(target: Target)

  /** `Integer.parseInt` on the capture: a number above the int range is an uncaught exception. */
  function ReadTarget(query: string, f: Field): Reading {
    match Capture(query, Key(f), Op(f))
    case None => Read(None)
    case Some(digits) => if Value(digits) > MAX_INT then Failed else Read(Some(Value(digits)))
  }

  lemma StartsWithFirst(s: string, key: string)
    requires key != ""
    ensures StartsWith(s, key) ==> s[0] == key[0]
  {
    if StartsWith(s, key) {
      assert s[..|key|][0] == key[0];
    }
  }

  lemma {:induction false} NoCapture(s: string, key: string, op: string)
    requires key != "" && key[0] !in s
    ensures Capture(s, key, op) == None
  {
    StartsWithFirst(s, key);
    if s != "" {
      NoCapture(s[1..], key, op);
    }
  }

  lemma {:induction false} CaptureAfter(a: string, b: string, key: string, op: string)
    requires key != "" && key[0] !in a
    ensures Capture(a + b, key, op) == Capture(b, key, op)
  {
    var s := a + b;
    if a == "" {
      assert s == b;
    } else {
      StartsWithFirst(s, key);
      assert s[1..] == a[1..] + b;
      CaptureAfter(a[1..], b, key, op);
    }
  }

  /** The captured digits of a comparison under any spacing. */
  lemma SpacedCapture(key: string, i: nat, op: string, j: nat, digits: string, rest: string)
    requires op != "" && !IsSpace(op[0])
    requires digits != "" && forall k | 0 <= k < |digits| :: IsDigit(digits[k])
    requires rest == "" || !IsDigit(rest[0])
    ensures CaptureHere(Spaced(key, i, op, j, digits) + rest, key, op) == Some(digits)
  {
    var s := Spaced(key, i, op, j, digits) + rest;
    var v := digits + rest;
    var t := op + (Spaces(j) + v);
    assert s == key + (Spaces(i) + t) by {
      Reassociate(key, Spaces(i) + Spread(op, j, digits), rest);
      Reassociate(Spaces(i), Spread(op, j, digits), rest);
      Reassociate(op, Spaces(j) + digits, rest);
      Reassociate(Spaces(j), digits, rest);
    }
    PrefixOfSum(key, Spaces(i) + t);
    SkipsSpaces(i, t);
    PrefixOfSum(op, Spaces(j) + v);
    assert IsDigit(digits[0]);
    SkipsSpaces(j, v);
    LeadingDigitsOf(digits, rest);
    PrefixOfSum(digits, rest);
  }

  lemma PrefixOfSum(a: string, b: string)
    ensures StartsWith(a + b, a) && (a + b)[..|a|] == a && (a + b)[|a|..] == b
  {
  }

  /** The tail reads a comparison under every spacing, `status ==n` included, takes the first of several,
      and fails on a number above the int range. */
  lemma SpelledRead(f: Field, i: nat, j: nat, n: nat, rest: string)
    requires rest == "" || !IsDigit(rest[0])
    ensures ReadTarget(Spelled(f, i, j, n) + rest, f) == if n <= 0x7FFF_FFFF then Read(Some(n)) else Failed
  {
    SpacedCapture(Key(f), i, Op(f), j, Dec(n), rest);
    ValueOfDec(n);
  }

  lemma OtherField(f: Field, i: nat, j: nat, n: nat)
    ensures Key(if f.Status? then Latency else Status)[0] !in Spelled(f, i, j, n)
  {
    var c := Key(if f.Status? then Latency else Status)[0];
    DecHasNo(n, c);
    assert c !in Spaces(i) && c !in Spaces(j) && c !in Key(f) && c !in Op(f);
  }

  /** What the gateway prints, the tail reads back, absent targets included. */
  lemma PrintedReads(status: Target, latency: Target)
    ensures ReadTarget(Printed(status, latency), Status) == Read(status)
    ensures ReadTarget(Printed(status, latency), Latency) == Read(latency)
  {
    PrintedIsSpelled(status, latency);
    if status.Some? && latency.Some? {
      BothRead(status.value, latency.value);
    } else if status.Some? {
      SingleRead(Status, status.value);
    } else if latency.Some? {
      SingleRead(Latency, latency.value);
    }
  }

  lemma SingleRead(f: Field, n: nat)
    requires n <= MAX_INT
    ensures ReadTarget(Spelled(f, 1, 1, n), f) == Read(Some(n))
    ensures ReadTarget(Spelled(f, 1, 1, n), if f.Status? then Latency else Status) == Read(None)
  {
    var t, other := Spelled(f, 1, 1, n), if f.Status? then Latency else Status;
    SpelledRead(f, 1, 1, n, "");
    assert t + "" == t;
    OtherField(f, 1, 1, n);
    NoCapture(t, Key(other), Op(other));
  }

  lemma BothRead(n: nat, m: nat)
    requires n <= MAX_INT && m <= MAX_INT
    ensures var q := Spelled(Status, 1, 1, n) + " AND " + Spelled(Latency, 1, 1, m);
            ReadTarget(q, Status) == Read(Some(n)) && ReadTarget(q, Latency) == Read(Some(m))
  {
    var a, b := Spelled(Status, 1, 1, n), Spelled(Latency, 1, 1, m);
    Reassociate(a, " AND ", b);
    SpelledRead(Status, 1, 1, n, " AND " + b);
    OtherField(Status, 1, 1, n);
    CaptureAfter(a + " AND ", b, Key(Latency), Op(Latency));
    SpelledRead(Latency, 1, 1, m, "");
    assert b + "" == b;
  }

  /** The two fields of a log record, either of which may be missing. */
  datatype Entry = Entry(status: Option<u64>, latency: Option<u64>)

  /** `Number.intValue`: the low 32 bits, read as a signed number. */
  function IntValue(v: u64): int {
    var low := v % 0x1_0000_0000;
    if low > MAX_INT then low - 0x1_0000_0000 else low
  }

  /** The subscription's numeric filter: an absent target constrains nothing, a missing field fails a target. */
  predicate TailMatches(status: Target, latency: Target, e: Entry) {
    && (status.Some? ==> e.status.Some? && IntValue(e.status.value) == status.value)
    && (latency.Some? ==> e.latency.Some? && IntValue(e.latency.value) > latency.value)
  }

  /** What a query is run against: text, compared on whole fields, or an export, compared on the low
      8 bits of its fields. The compiled kernel may take a target of more than 8 bits whole or reduce
      it to 8 bits as well; `whole` says which. */
  datatype Scan = TextScan | AgbScan(whole: bool)

  const AGB_BITS := 8

  function CriterionOf(scan: Scan, s: u64, l: u64): Criterion {
    match scan
    case TextScan => Exact(s, l)
    case AgbScan(whole) =>
      if whole then Truncated(AGB_BITS, s, l) else LowTargets(AGB_BITS, s, l)
  }

  function LowTargets(width: nat, s: u64, l: u64): Criterion {
    TruncBounds(s, width);
    TruncBounds(l, width);
    Truncated(width, Trunc(s, width), Trunc(l, width))
  }

  /** The scan's filter: both comparisons always apply, and a missing field reads as zero. */
  predicate ScanMatches(scan: Scan, q: ParsedQuery, e: Entry) {
    q.Numerical? && CriterionOf(scan, q.status, q.latency).Accepts(Row(OrZero(e.status), OrZero(e.latency)))
  }

  /** Both readers accept the text and answer alike on the record. */
  predicate AgreeOn(scan: Scan, query: string, e: Entry) {
    var status, latency := ReadTarget(query, Status), ReadTarget(query, Latency);
    && status.Read? && latency.Read?
    && (TailMatches(status.target, latency.target, e) <==> ScanMatches(scan, Parsed(query), e))
  }

  predicate InIntRange(e: Entry) {
    (e.status.Some? ==> e.status.value <= MAX_INT) && (e.latency.Some? ==> e.latency.value <= MAX_INT)
  }

  /** The two answers on a record, from the targets alone. */
  predicate SameAnswer(scan: Scan, status: Target, latency: Target, e: Entry) {
    TailMatches(status, latency, e) <==>
    CriterionOf(scan, OrZero(status), OrZero(latency)).Accepts(Row(OrZero(e.status), OrZero(e.latency)))
  }

  lemma AgreeOnPrinted(scan: Scan, status: Target, latency: Target, e: Entry)
    requires status.Some? || latency.Some?
    ensures AgreeOn(scan, Printed(status, latency), e) <==> SameAnswer(scan, status, latency, e)
  {
    PrintedReads(status, latency);
    PrintedParses(status, latency);
  }

  /** Agreement on the printed query, over all records in the int range, from the targets alone. */
  lemma AgreementOnPrinted(scan: Scan, status: Target, latency: Target)
    requires status.Some? || latency.Some?
    ensures (forall e | InIntRange(e) :: AgreeOn(scan, Printed(status, latency), e)) <==>
            (forall e | InIntRange(e) :: SameAnswer(scan, status, latency, e))
  {
    var query := Printed(status, latency);
    forall e ensures AgreeOn(scan, query, e) <==> SameAnswer(scan, status, latency, e) {
      AgreeOnPrinted(scan, status, latency, e);
    }
    if e :| InIntRange(e) && !SameAnswer(scan, status, latency, e) {
      assert !AgreeOn(scan, query, e);
    }
  }

  lemma TextAnswersIff(status: Target, latency: Target)
    requires status.Some? || latency.Some?
    ensures (forall e | InIntRange(e) :: SameAnswer(TextScan, status, latency, e)) <==>
            latency.Some? && (latency.value == MAX_INT || (status.Some? && status.value != 0))
  {
    if latency.None? {
      assert !SameAnswer(TextScan, status, latency, Entry(Some(status.value), Some(0)));
    } else if latency.value < MAX_INT && status.None? {
      assert !SameAnswer(TextScan, status, latency, Entry(Some(1), Some(MAX_INT)));
    } else if latency.value < MAX_INT && status.value == 0 {
      assert !SameAnswer(TextScan, status, latency, Entry(None, Some(MAX_INT)));
    }
  }

  /** One query text, two readers: on records whose present fields are in the int range, the live tail
      and the scan of a text file agree exactly when both targets are given and the status is not 0, or
      when nothing can exceed the latency asked for. A latency-only query scans for status 0, a
      status-only query drops records of latency 0, and a query for status 0 counts records without
      a status. */
  lemma ReadersAgreeIff(status: Target, latency: Target)
    requires status.Some? || latency.Some?
    ensures (forall e | InIntRange(e) :: AgreeOn(TextScan, Printed(status, latency), e)) <==>
            latency.Some? && (latency.value == MAX_INT || (status.Some? && status.value != 0))
  {
    AgreementOnPrinted(TextScan, status, latency);
    TextAnswersIff(status, latency);
  }

  lemma LowByte(v: nat)
    ensures Trunc(v, AGB_BITS) == v % 256
  {
    Pow2Values();
    TruncIsMod(v, AGB_BITS);
  }

  /** The scan of an export, as arithmetic on low bytes. */
  lemma AgbAccepts(whole: bool, s: u64, l: u64, r: Row)
    ensures CriterionOf(AgbScan(whole), s, l).Accepts(r) <==>
            && r.status % 256 == (if whole then s else s % 256)
            && r.latency % 256 > (if whole then l else l % 256)
  {
    LowByte(s);
    LowByte(l);
    LowByte(r.status);
    LowByte(r.latency);
  }

  lemma IntValueSmall(v: u64)
    requires v <= MAX_INT
    ensures IntValue(v) == v
  {
  }

  /** Both answers on a complete record in the int range, as arithmetic. */
  lemma AgbAnswer(whole: bool, status: Target, latency: Target, x: nat, y: nat)
    requires x <= MAX_INT && y <= MAX_INT
    ensures SameAnswer(AgbScan(whole), status, latency, Entry(Some(x), Some(y))) <==>
            (((status.Some? ==> x == status.value) && (latency.Some? ==> y > latency.value)) <==>
             CriterionOf(AgbScan(whole), OrZero(status), OrZero(latency)).Accepts(Row(x, y)))
  {
    IntValueSmall(x);
    IntValueSmall(y);
  }

  /** A record that the scan of an export and the tail judge differently, for a query with both targets. */
  lemma AgbWitness(whole: bool, n: nat, m: nat) returns (e: Entry)
    requires n <= MAX_INT && m < MAX_INT
    ensures InIntRange(e) && !SameAnswer(AgbScan(whole), Some(n), Some(m), e)
  {
    var x, y := Alias(n), MAX_INT;
    if whole && (n >= 256 || m >= 255) {
      x := n;
    } else if !whole && m % 256 == 255 {
      x, y := n, m + 1;
    }
    assert MAX_INT % 256 == 255;
    AgbAnswer(whole, Some(n), Some(m), x, y);
    AgbAccepts(whole, n, m, Row(x, y));
    e := Entry(Some(x), Some(y));
  }

  /** Another status with the same low byte. */
  function Alias(n: nat): (x: nat)
    requires n <= MAX_INT
    ensures x <= MAX_INT && x != n && x % 256 == n % 256
  {
    if n < 256 then n + 256 else n - 256
  }

  lemma AgbAnswersIff(whole: bool, status: Target, latency: Target)
    requires status.Some? || latency.Some?
    ensures (forall e | InIntRange(e) :: SameAnswer(AgbScan(whole), status, latency, e)) <==> latency == Some(MAX_INT)
  {
    var s, l := OrZero(status), OrZero(latency);
    if latency == Some(MAX_INT) {
      forall e | InIntRange(e) ensures SameAnswer(AgbScan(whole), status, latency, e) {
        AgbAccepts(whole, s, l, Row(OrZero(e.status), OrZero(e.latency)));
        IntValueSmall(OrZero(e.latency));
      }
    } else if latency.Some? && status.Some? {
      var e := AgbWitness(whole, status.value, latency.value);
    } else {
      var x, y := if status.Some? then status.value else 1, if latency.Some? then MAX_INT else 0;
      AgbAnswer(whole, status, latency, x, y);
      AgbAccepts(whole, s, l, Row(x, y));
      assert !SameAnswer(AgbScan(whole), status, latency, Entry(Some(x), Some(y)));
    }
  }

  /** Against an export the two agree only when nothing can match: on 8 bits some record in the int
      range is judged differently for every other query. */
  lemma AgbReadersAgreeIff(whole: bool, status: Target, latency: Target)
    requires status.Some? || latency.Some?
    ensures (forall e | InIntRange(e) :: AgreeOn(AgbScan(whole), Printed(status, latency), e)) <==> latency == Some(MAX_INT)
  {
    AgreementOnPrinted(AgbScan(whole), status, latency);
    AgbAnswersIff(whole, status, latency);
  }

  /** The tail sees only the low 32 bits: a status that differs by 2^32 matches as well. */
  lemma TailAliases(n: nat, high: nat)
    requires n <= MAX_INT && n + 0x1_0000_0000 * high <= ALL_ONES
    ensures TailMatches(Some(n), None, Entry(Some(n + 0x1_0000_0000 * high), None))
  {
    assert (n + 0x1_0000_0000 * high) % 0x1_0000_0000 == n;
  }

  lemma BeyondRange(status: Target, latency: Target) returns (e: Entry)
    requires status.Some? || latency.Some?
    ensures !SameAnswer(TextScan, status, latency, e)
  {
    var n: u64, m: u64 := OrZero(status), if latency.Some? then MAX_INT + 1 else 0;
    assert IntValue(n) == n && IntValue(MAX_INT + 1) < 0;
    e := Entry(Some(n), Some(m));
    if latency.Some? {
      assert !TailMatches(status, latency, e);
    } else {
      assert TailMatches(status, latency, e);
    }
  }

  /** Beyond the int range no query of a text file is safe: the tail reads a latency of 2^31 as negative. */
  lemma ReadersDisagreeBeyond(status: Target, latency: Target) returns (e: Entry)
    requires status.Some? || latency.Some?
    ensures !AgreeOn(TextScan, Printed(status, latency), e)
  {
    e := BeyondRange(status, latency);
    AgreeOnPrinted(TextScan, status, latency, e);
  }
}
