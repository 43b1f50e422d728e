/** The textual query path: the gateway prints a query, the dispatcher and the
    live-tail subscription each parse it back. */
module QueryText {
  import opened Bits
  import opened Text

  datatype ParsedQuery =
    | Scalar(pattern: string)
    | Numerical(status: u64, latency: u64)

  /** A query with a comparison operator is numerical; anything else is a text search. */
  predicate IsNumerical(q: string) { Contains(q, "==") || Contains(q, ">") || Contains(q, "<") }

  /** The pattern of a text search: the argument of `contains(...)` or the query itself, unquoted. */
  function ScalarPattern(q: string): string {
    if StartsWith(q, "contains(") && q[|q| - 1] == ')' then Unquote(Trim(q[9..|q| - 1])) else Unquote(q)
  }

  function BlankChar(s: string, c: char): (r: string)
    ensures |r| == |s| && forall i | 0 <= i < |s| :: r[i] == if s[i] == c then ' ' else s[i]
  {
    seq(|s|, i requires 0 <= i < |s| => if s[i] == c then ' ' else s[i])
  }

  /** A failed conversion leaves the target as it was. */
  function OrKeep(v: Option<u64>, old_: u64): u64 { if v.Some? then v.value else old_ }

  /** One term: the value after the operator in the same word, or in the next word when the word
      ends with the operator, or in the word after next when the operator stands alone.
      Returns the new target and the words left. */
  function Term(word: string, op: string, rest: seq<string>, target: u64): (u64, seq<string>) {
    match Find(word, op)
    case Some(k) =>
      var val := word[k + |op|..];
      if val != "" then (OrKeep(Stoull(val), target), rest)
      else if rest == [] then (target, [])
      else (OrKeep(Stoull(rest[0]), target), rest[1..])
    case None =>
      if |rest| < 2 then (target, []) else (OrKeep(Stoull(rest[1]), target), rest[2..])
  }

  lemma TermShrinks(word: string, op: string, rest: seq<string>, target: u64)
    ensures |Term(word, op, rest, target).1| <= |rest|
  {
  }

  function ReadTerms(words: seq<string>, status: u64, latency: u64): (u64, u64)
    decreases |words|
  {
    if words == [] then (status, latency)
    else if Contains(words[0], "status") then
      TermShrinks(words[0], "==", words[1..], status);
      var (v, rest) := Term(words[0], "==", words[1..], status);
      ReadTerms(rest, v, latency)
    else if Contains(words[0], "latency") then
      TermShrinks(words[0], ">", words[1..], latency);
      var (v, rest) := Term(words[0], ">", words[1..], latency);
      ReadTerms(rest, status, v)
    else ReadTerms(words[1..], status, latency)
  }

  /** The word loop, as a function of the words still in the stream. */
  function Terms(words: seq<string>, status: u64, latency: u64): (u64, u64) { ReadTerms(words, status, latency) }

  function Cleaned(q: string): string {
    Blank(Blank(BlankChar(BlankChar(q, '&'), '|'), "AND"), "and")
  }

  /** What the dispatcher makes of a query string. */
  function Parsed(query: string): ParsedQuery {
    var q := Trim(query);
    if !IsNumerical(q) then Scalar(ScalarPattern(q))
    else var (s, l) := Terms(Words(Cleaned(q)), 0, 0); Numerical(s, l)
  }

  /** The dispatcher: rewrites the string, then consumes words from the stream. */
  method ParseQuery(query: string) returns (result: ParsedQuery)
    ensures result == Parsed(query)
  {
    var q := Trim(query);
    if !IsNumerical(q) {
      return Scalar(ScalarPattern(q));
    }
    q := BlankChar(q, '&');
    q := BlankChar(q, '|');
    q := ReplaceAll(q, "AND");
    q := ReplaceAll(q, "and");
    var stream := Words(q);
    var status: u64, latency: u64 := 0, 0;
    while stream != []
      invariant Terms(Words(q), 0, 0) == Terms(stream, status, latency)
      decreases |stream|
    {
      var word, rest := stream[0], stream[1..];
      if Contains(word, "status") {
        TermShrinks(word, "==", rest, status);
        var t := Term(word, "==", rest, status);
        status, stream := t.0, t.1;
      } else if Contains(word, "latency") {
        TermShrinks(word, ">", rest, latency);
        var t := Term(word, ">", rest, latency);
        latency, stream := t.0, t.1;
      } else {
        stream := rest;
      }
    }
    return Numerical(status, latency);
  }

  const MAX_INT := 0x7FFF_FFFF

  type Target = v: Option<nat> | v.Some? ==> v.value <= MAX_INT witness None

  /** The query string the gateway synthesises from the extracted targets. */
  function Printed(status: Target, latency: Target): string {
    var s := if status.Some? then "status == " + Dec(status.value) else "";
    if latency.Some? then s + (if s != "" then " AND " else "") + "latency > " + Dec(latency.value) else s
  }

  /** The gateway: the synthesised comparisons, or failing both targets the text of the line filter. */
  method Synthesize(status: Target, latency: Target, filter: Option<string>) returns (query: string)
    ensures status.Some? || latency.Some? ==> query == Printed(status, latency)
    ensures status.None? && latency.None? ==> query == match filter case Some(text) => text case None => ""
  {
    query := "";
    if status.Some? {
      query := query + "status == " + Dec(status.value);
      assert query == "status == " + Dec(status.value);
    }
    if latency.Some? {
      assert query + "" == query;
      if |query| > 0 {
        query := query + " AND ";
      }
      query := query + "latency > " + Dec(latency.value);
    }
    if |query| > 0 {
      return;
    }
    if filter.Some? {
      query := filter.value;
    }
  }

  datatype Field = Status | Latency

  function Key(f: Field): string { if f.Status? then "status" else "latency" }

  function Op(f: Field): string { if f.Status? then "==" else ">" }

  /** A comparison with `i` spaces before the operator and `j` after it. */
  function Spelled(f: Field, i: nat, j: nat, n: nat): string {
    Spaced(Key(f), i, Op(f), j, Dec(n))
  }

  function Spaced(key: string, i: nat, op: string, j: nat, val: string): string {
    key + (Spaces(i) + Spread(op, j, val))
  }

  function Spread(op: string, j: nat, val: string): string { op + (Spaces(j) + val) }

  function SpacedWords(key: string, i: nat, op: string, j: nat, val: string): seq<string> {
    if i == 0 && j == 0 then [key + op + val]
    else if i == 0 then [key + op, val]
    else if j == 0 then [key, op + val]
    else [key, op, val]
  }

  lemma SpacedWordsAre(key: string, i: nat, op: string, j: nat, val: string, rest: string)
    requires key != "" && op != "" && val != ""
    requires NoSpaces(key) && NoSpaces(op) && NoSpaces(val)
    requires rest == "" || IsSpace(rest[0])
    ensures Words(Spaced(key, i, op, j, val) + rest) == SpacedWords(key, i, op, j, val) + Words(rest)
  {
    if i == 0 {
      AttachedWords(key, op, j, val, rest);
    } else {
      SpreadWords(op, j, val, rest);
      DetachedWords(key, i, Spread(op, j, val), rest);
    }
  }

  lemma Reassociate(a: string, b: string, c: string)
    ensures a + b + c == a + (b + c)
  {
  }

  lemma DetachedWords(key: string, i: nat, t: string, rest: string)
    requires key != "" && NoSpaces(key) && i > 0
    ensures Words(key + (Spaces(i) + t) + rest) == [key] + Words(t + rest)
  {
    Reassociate(key, Spaces(i) + t, rest);
    Reassociate(Spaces(i), t, rest);
    WordThenSpaces(key, i, t + rest);
  }

  lemma AttachedWords(key: string, op: string, j: nat, val: string, rest: string)
    requires key != "" && val != "" && NoSpaces(key) && NoSpaces(op) && NoSpaces(val)
    requires rest == "" || IsSpace(rest[0])
    ensures Words(Spaced(key, 0, op, j, val) + rest) == (if j == 0 then [key + op + val] else [key + op, val]) + Words(rest)
  {
    AttachedIsSpread(key, op, j, val);
    NoSpacesSum(key, op);
    SpreadWords(key + op, j, val, rest);
  }

  lemma NoSpacesSum(a: string, b: string)
    requires NoSpaces(a) && NoSpaces(b)
    ensures NoSpaces(a + b)
  {
  }

  lemma AttachedIsSpread(key: string, op: string, j: nat, val: string)
    ensures Spaced(key, 0, op, j, val) == Spread(key + op, j, val)
  {
    assert Spaces(0) + Spread(op, j, val) == Spread(op, j, val);
    Reassociate(key, op, Spaces(j) + val);
  }

  lemma SpreadWords(op: string, j: nat, val: string, rest: string)
    requires op != "" && val != "" && NoSpaces(op) && NoSpaces(val)
    requires rest == "" || IsSpace(rest[0])
    ensures Words(Spread(op, j, val) + rest) == (if j == 0 then [op + val] else [op, val]) + Words(rest)
  {
    var s := Spread(op, j, val) + rest;
    if j == 0 {
      assert Spaces(0) + val == val;
      NoSpacesSum(op, val);
      WordThen(op + val, rest);
    } else {
      assert s == op + (Spaces(j) + (val + rest)) by {
        Reassociate(op, Spaces(j) + val, rest);
        Reassociate(Spaces(j), val, rest);
      }
      WordThenSpaces(op, j, val + rest);
      WordThen(val, rest);
    }
  }

  function SpelledWords(f: Field, i: nat, j: nat, n: nat): seq<string> {
    SpacedWords(Key(f), i, Op(f), j, Dec(n))
  }

  lemma SpelledWordsAre(f: Field, i: nat, j: nat, n: nat, rest: string)
    requires rest == "" || IsSpace(rest[0])
    ensures Words(Spelled(f, i, j, n) + rest) == SpelledWords(f, i, j, n) + Words(rest)
  {
    var d := Dec(n);
    assert NoSpaces(d) by { assert forall k | 0 <= k < |d| :: IsDigit(d[k]); }
    SpacedWordsAre(Key(f), i, Op(f), j, d, rest);
  }

  lemma DecHasNo(n: nat, c: char)
    requires !IsDigit(c)
    ensures c !in Dec(n)
  {
  }

  /** The spacings under which the dispatcher finds the value: a detached operator needs a detached value. */
  predicate WellSpaced(i: nat, j: nat) { i == 0 || j > 0 }

  ghost predicate FirstOf(f: Field, w: string) {
    w == Key(f) || w == Key(f) + Op(f) || exists n :: w == Key(f) + Op(f) + Dec(n)
  }

  /** The first word of a comparison names its field and no other. */
  lemma FirstWord(f: Field, w: string)
    requires FirstOf(f, w)
    ensures Contains(w, "status") <==> f.Status?
    ensures f.Latency? ==> Contains(w, "latency")
  {
    assert w[..|Key(f)|] == Key(f);
    assert w[0..0 + |Key(f)|] == Key(f);
    FindIsLeftmost(w, Key(f), 0);
    if f.Latency? {
      forall n ensures 's' !in Dec(n) { DecHasNo(n, 's'); }
      assert 's' !in w;
      NotFound(w, "status", 's');
    }
  }

  /** A well-spaced comparison sets its field and leaves the rest of the stream alone. */
  lemma SpacedTerm(key: string, i: nat, op: string, j: nat, val: string, rest: seq<string>, target: u64)
    requires key != "" && op != "" && val != "" && op[0] !in key
    requires WellSpaced(i, j)
    ensures var ws := SpacedWords(key, i, op, j, val);
            Term(ws[0], op, ws[1..] + rest, target) == (OrKeep(Stoull(val), target), rest)
  {
    var ws := SpacedWords(key, i, op, j, val);
    if i == 0 && j == 0 {
      FoundAfter(key, op, val);
      assert ws[0][|key| + |op|..] == val;
      assert ws[1..] + rest == rest;
    } else if i == 0 {
      FoundAfter(key, op, "");
      assert key + op + "" == key + op;
      assert ws[1..] + rest == [val] + rest;
    } else {
      NotFound(key, op, op[0]);
      assert ws[1..] + rest == [op, val] + rest;
    }
  }

  lemma FirstSpelledWord(f: Field, i: nat, j: nat, n: nat)
    ensures var w := SpelledWords(f, i, j, n)[0];
            (Contains(w, "status") <==> f.Status?) && (f.Latency? ==> Contains(w, "latency"))
  {
    var w := SpelledWords(f, i, j, n)[0];
    assert i == 0 && j == 0 ==> w == Key(f) + Op(f) + Dec(n);
    FirstWord(f, w);
  }

  /** A word that names a field starts that field's term. */
  lemma TermsUnfold(f: Field, words: seq<string>, s: u64, l: u64)
    requires words != [] && (Contains(words[0], "status") <==> f.Status?) && (f.Latency? ==> Contains(words[0], "latency"))
    ensures var t := Term(words[0], Op(f), words[1..], if f.Status? then s else l);
            Terms(words, s, l) == if f.Status? then Terms(t.1, t.0, l) else Terms(t.1, s, t.0)
  {
    TermShrinks(words[0], Op(f), words[1..], if f.Status? then s else l);
  }

  lemma TermsAfter(f: Field, ws: seq<string>, rest: seq<string>, v: u64, s: u64, l: u64)
    requires ws != [] && (Contains(ws[0], "status") <==> f.Status?) && (f.Latency? ==> Contains(ws[0], "latency"))
    requires Term(ws[0], Op(f), ws[1..] + rest, if f.Status? then s else l) == (v, rest)
    ensures Terms(ws + rest, s, l) == if f.Status? then Terms(rest, v, l) else Terms(rest, s, v)
  {
    assert (ws + rest)[1..] == ws[1..] + rest && (ws + rest)[0] == ws[0];
    TermsUnfold(f, ws + rest, s, l);
  }

  /** A well-spaced comparison reads its number into its field; one that is no number leaves it. */
  lemma SpelledTermsAny(f: Field, i: nat, j: nat, n: nat, rest: seq<string>, s: u64, l: u64)
    requires WellSpaced(i, j)
    ensures var v := OrKeep(Stoull(Dec(n)), if f.Status? then s else l);
            Terms(SpelledWords(f, i, j, n) + rest, s, l) == if f.Status? then Terms(rest, v, l) else Terms(rest, s, v)
  {
    var target := if f.Status? then s else l;
    FirstSpelledWord(f, i, j, n);
    SpacedTerm(Key(f), i, Op(f), j, Dec(n), rest, target);
    TermsAfter(f, SpelledWords(f, i, j, n), rest, OrKeep(Stoull(Dec(n)), target), s, l);
  }

  lemma SpelledTerms(f: Field, i: nat, j: nat, n: nat, rest: seq<string>, s: u64, l: u64)
    requires n <= ALL_ONES
    requires WellSpaced(i, j)
    ensures Terms(SpelledWords(f, i, j, n) + rest, s, l)
         == if f.Status? then Terms(rest, n, l) else Terms(rest, s, n)
  {
    StoullOfDec(n);
    SpelledTermsAny(f, i, j, n, rest, s, l);
  }

  /** Nothing in `s` is rewritten before the words are taken. */
  predicate Plain(s: string) { '&' !in s && '|' !in s && 'A' !in s && 'd' !in s }

  lemma PlainIsClean(s: string)
    requires Plain(s)
    ensures BlankChar(s, '&') == s && BlankChar(s, '|') == s && Blank(s, "AND") == s && Cleaned(s) == s
  {
    assert BlankChar(s, '&') == s && BlankChar(s, '|') == s;
    BlankNothing(s, "AND", 'A');
    BlankNothing(s, "and", 'd');
  }

  lemma SpelledShape(f: Field, i: nat, j: nat, n: nat)
    ensures var t := Spelled(f, i, j, n);
            t != "" && Plain(t) && !IsSpace(t[0]) && !IsSpace(t[|t| - 1])
  {
    var t := Spelled(f, i, j, n);
    forall c | c in {'&', '|', 'A', 'd'} ensures c !in t {
      DecHasNo(n, c);
      assert c !in Spaces(i) && c !in Spaces(j) && c !in Key(f) && c !in Op(f);
    }
    assert t[|t| - 1] == Dec(n)[|Dec(n)| - 1];
  }

  lemma ContainsWithin(a: string, pat: string, b: string)
    ensures Contains(a + (pat + b), pat)
  {
    var q := a + (pat + b);
    assert q[|a|..|a| + |pat|] == pat;
    FindIsLeftmost(q, pat, |a|);
  }

  /** A query that starts with a comparison is taken word by word. */
  lemma ParsedByWords(f: Field, i: nat, j: nat, n: nat, rest: string)
    requires rest == "" || !IsSpace(rest[|rest| - 1])
    ensures var q := Spelled(f, i, j, n) + rest;
            var t := Terms(Words(Cleaned(q)), 0, 0);
            Parsed(q) == Numerical(t.0, t.1)
  {
    SpelledShape(f, i, j, n);
    var t := Spelled(f, i, j, n);
    var q, val := t + rest, Spaces(j) + Dec(n);
    assert q[|q| - 1] == if rest == "" then t[|t| - 1] else rest[|rest| - 1];
    TrimIsIdentityIff(q);
    assert IsNumerical(q) by {
      Reassociate(Key(f), Spaces(i) + (Op(f) + val), rest);
      Reassociate(Spaces(i), Op(f) + val, rest);
      Reassociate(Op(f), val, rest);
      Reassociate(Key(f), Spaces(i), Op(f) + (val + rest));
      ContainsWithin(Key(f) + Spaces(i), Op(f), val + rest);
    }
  }

  /** A detached operator glued to its value is skipped over, and the field keeps its value. */
  lemma BadlySpacedTerms(f: Field, i: nat, j: nat, n: nat, s: u64, l: u64)
    requires !WellSpaced(i, j)
    ensures Terms(SpelledWords(f, i, j, n), s, l) == (s, l)
  {
    var ws := SpelledWords(f, i, j, n);
    FirstWord(f, Key(f));
    NotFound(Key(f), Op(f), Op(f)[0]);
    assert Term(ws[0], Op(f), ws[1..], if f.Status? then s else l) == (if f.Status? then s else l, []);
    TermsUnfold(f, ws, s, l);
  }

  lemma BadlySpaced(f: Field, i: nat, j: nat, n: nat)
    requires !WellSpaced(i, j)
    ensures Parsed(Spelled(f, i, j, n)) == Numerical(0, 0)
  {
    ParsedAlone(f, i, j, n);
    BadlySpacedTerms(f, i, j, n, 0, 0);
  }

  /** A query that is one comparison is the terms of that comparison's words. */
  lemma ParsedAlone(f: Field, i: nat, j: nat, n: nat)
    ensures var t := Terms(SpelledWords(f, i, j, n), 0, 0);
            Parsed(Spelled(f, i, j, n)) == Numerical(t.0, t.1)
  {
    var t, ws := Spelled(f, i, j, n), SpelledWords(f, i, j, n);
    assert t + "" == t && ws + [] == ws;
    ParsedByWords(f, i, j, n, "");
    SpelledShape(f, i, j, n);
    PlainIsClean(t);
    SpelledWordsAre(f, i, j, n, "");
    assert Words(Cleaned(t)) == ws;
  }

  /** One comparison, any spacing: the dispatcher reads the value exactly when the spacing lets it.
      `status ==n` silently becomes a search for status 0. */
  lemma SpacingIff(f: Field, i: nat, j: nat, n: nat)
    requires n <= ALL_ONES
    ensures Parsed(Spelled(f, i, j, n)) == (if f.Status? then Numerical(n, 0) else Numerical(0, n))
        <==> WellSpaced(i, j) || n == 0
  {
    if WellSpaced(i, j) {
      ParsedAlone(f, i, j, n);
      SpelledTerms(f, i, j, n, [], 0, 0);
      assert SpelledWords(f, i, j, n) + [] == SpelledWords(f, i, j, n);
    } else {
      BadlySpaced(f, i, j, n);
    }
  }

  /** A query for status 5 that is read as a query for status 0. */
  lemma SpacingCounterexample()
    ensures Parsed("status ==5") == Numerical(0, 0)
  {
    assert Spaces(1) == " " && Dec(5) == "5";
    assert Spelled(Status, 1, 0, 5) == "status ==5";
    BadlySpaced(Status, 1, 0, 5);
  }

  /** Two comparisons joined by `AND`, any spacing. A badly spaced status also swallows the latency
      that follows it; a badly spaced latency is skipped on its own. */
  lemma ConjunctionParses(i: nat, j: nat, n: nat, k: nat, l: nat, m: nat)
    requires n <= ALL_ONES && m <= ALL_ONES
    ensures Parsed(Spelled(Status, i, j, n) + " AND " + Spelled(Latency, k, l, m)) ==
            if !WellSpaced(i, j) then Numerical(0, 0)
            else if !WellSpaced(k, l) then Numerical(n, 0)
            else Numerical(n, m)
  {
    var a, b := Spelled(Status, i, j, n), Spelled(Latency, k, l, m);
    SpelledShape(Status, i, j, n);
    SpelledShape(Latency, k, l, m);
    ConjunctionWords(i, j, n, k, l, m);
    Reassociate(a, " AND ", b);
    LastOfSum(" AND ", b);
    ParsedByWords(Status, i, j, n, " AND " + b);
    ConjunctionTerms(i, j, n, k, l, m);
  }

  lemma LastOfSum(a: string, b: string)
    requires b != ""
    ensures (a + b)[|a + b| - 1] == b[|b| - 1]
  {
  }

  lemma ConjunctionTerms(i: nat, j: nat, n: nat, k: nat, l: nat, m: nat)
    requires n <= ALL_ONES && m <= ALL_ONES
    ensures Terms(SpelledWords(Status, i, j, n) + SpelledWords(Latency, k, l, m), 0, 0) ==
            if !WellSpaced(i, j) then (0, 0) else if !WellSpaced(k, l) then (n, 0) else (n, m)
  {
    var second := SpelledWords(Latency, k, l, m);
    if !WellSpaced(i, j) {
      SwallowsNext(i, j, n, k, l, m);
    } else {
      SpelledTerms(Status, i, j, n, second, 0, 0);
      if !WellSpaced(k, l) {
        BadlySpacedTerms(Latency, k, l, m, n, 0);
      } else {
        SpelledTerms(Latency, k, l, m, [], n, 0);
        assert second + [] == second;
      }
    }
  }

  /** Words that name no field are skipped. */
  lemma {:induction false} SkipWords(words: seq<string>, s: u64, l: u64)
    requires forall w | w in words :: 's' !in w && 'l' !in w
    ensures Terms(words, s, l) == (s, l)
  {
    if words != [] {
      NotFound(words[0], "status", 's');
      NotFound(words[0], "latency", 'l');
      SkipWords(words[1..], s, l);
    }
  }

  lemma NotANumber(w: string)
    requires w != "" && w[0] == 'l'
    ensures Stoull(w) == None
  {
  }

  /** The words of a comparison after its first name no field. */
  lemma TailWords(k: nat, l: nat, m: nat)
    ensures forall w | w in SpelledWords(Latency, k, l, m)[1..] :: 's' !in w && 'l' !in w
  {
    DecHasNo(m, 's');
    DecHasNo(m, 'l');
  }

  /** A badly spaced status takes the first word of what follows for its value, and fails. */
  lemma SwallowsNext(i: nat, j: nat, n: nat, k: nat, l: nat, m: nat)
    requires !WellSpaced(i, j)
    ensures Terms(SpelledWords(Status, i, j, n) + SpelledWords(Latency, k, l, m), 0, 0) == (0, 0)
  {
    var second := SpelledWords(Latency, k, l, m);
    var words := SpelledWords(Status, i, j, n) + second;
    FirstWord(Status, Key(Status));
    NotFound(Key(Status), Op(Status), Op(Status)[0]);
    NotANumber(second[0]);
    assert words[1..] == ["==" + Dec(n)] + second && words[1..][2..] == second[1..];
    assert Term(words[0], Op(Status), words[1..], 0) == (0, second[1..]);
    TermsUnfold(Status, words, 0, 0);
    TailWords(k, l, m);
    SkipWords(second[1..], 0, 0);
  }

  lemma ConjunctionWords(i: nat, j: nat, n: nat, k: nat, l: nat, m: nat)
    ensures Words(Cleaned(Spelled(Status, i, j, n) + " AND " + Spelled(Latency, k, l, m)))
         == SpelledWords(Status, i, j, n) + SpelledWords(Latency, k, l, m)
  {
    var a, b := Spelled(Status, i, j, n), Spelled(Latency, k, l, m);
    SpelledShape(Status, i, j, n);
    SpelledShape(Latency, k, l, m);
    ConjunctionCleaned(a, b);
    assert Spaces(3) == "   ";
    assert Words(b) == SpelledWords(Latency, k, l, m) by {
      SpelledWordsAre(Latency, k, l, m, "");
      assert b + "" == b && Words("") == [];
    }
    WordsAfterSpaces(3, b);
    SpelledWordsAre(Status, i, j, n, Spaces(3) + b);
  }

  lemma ConjunctionCleaned(a: string, b: string)
    requires Plain(a) && Plain(b)
    ensures Cleaned(a + " AND " + b) == a + ("   " + b)
  {
    var q, r := a + " AND " + b, a + ("   " + b);
    assert BlankChar(BlankChar(q, '&'), '|') == q;
    assert Blank(q, "AND") == r by { ConjunctionBlanked(a, b); }
    BlankNothing(r, "and", 'd');
  }

  lemma ConjunctionBlanked(a: string, b: string)
    requires 'A' !in a && 'A' !in b
    ensures Blank(a + " AND " + b, "AND") == a + ("   " + b)
  {
    var l, r := a + " ", " " + b;
    AndStandsFree(a, b);
    BlankAfter(l, "AND", r);
    BlankNothing(r, "AND", 'A');
    ThreeSpaces(a, b);
  }

  lemma AndStandsFree(a: string, b: string)
    ensures a + " AND " + b == (a + " ") + "AND" + (" " + b)
  {
  }

  lemma ThreeSpaces(a: string, b: string)
    ensures (a + " ") + (" " + (" " + b)) == a + ("   " + b)
  {
  }

  /** The gateway's output in terms of comparisons with one space on each side. */
  lemma PrintedIsSpelled(status: Target, latency: Target)
    ensures status.Some? && latency.None? ==> Printed(status, latency) == Spelled(Status, 1, 1, status.value)
    ensures status.None? && latency.Some? ==> Printed(status, latency) == Spelled(Latency, 1, 1, latency.value)
    ensures status.Some? && latency.Some? ==>
              Printed(status, latency) == Spelled(Status, 1, 1, status.value) + " AND " + Spelled(Latency, 1, 1, latency.value)
  {
    assert Spaces(1) == " ";
    if status.Some? {
      assert "status == " + Dec(status.value) == Spelled(Status, 1, 1, status.value);
    }
    if latency.Some? {
      assert "latency > " + Dec(latency.value) == Spelled(Latency, 1, 1, latency.value);
      Reassociate("", "latency > ", Dec(latency.value));
    }
  }

  /** What the gateway prints, the dispatcher reads back; an absent target reads as 0. */
  lemma PrintedParses(status: Target, latency: Target)
    requires status.Some? || latency.Some?
    ensures Parsed(Printed(status, latency))
         == Numerical(if status.Some? then status.value else 0, if latency.Some? then latency.value else 0)
  {
    PrintedIsSpelled(status, latency);
    if status.Some? && latency.Some? {
      ConjunctionParses(1, 1, status.value, 1, 1, latency.value);
    } else if status.Some? {
      SpacingIff(Status, 1, 1, status.value);
    } else {
      SpacingIff(Latency, 1, 1, latency.value);
    }
  }

  /** The text a line filter hands on is searched for verbatim exactly when nothing in it looks
      like a comparison, a `contains(...)` call, a quoted string or outer blanks. */
  lemma ScalarSurvivesIff(text: string)
    ensures Parsed(text) == Scalar(text) <==>
            (&& !IsNumerical(text)
             && (text == "" || (!IsSpace(text[0]) && !IsSpace(text[|text| - 1])))
             && !(StartsWith(text, "contains(") && text[|text| - 1] == ')')
             && !(text != "" && text[0] == '"' && text[|text| - 1] == '"'))
  {
    TrimIsIdentityIff(text);
    var q := Trim(text);
    if StartsWith(q, "contains(") && q[|q| - 1] == ')' {
      assert |q| > 9 by { assert q[..9][8] == '('; }
      TrimIsIdentityIff(q[9..|q| - 1]);
    }
  }
}
