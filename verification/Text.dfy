/** String operations the query front ends rely on, with the laws used to parse what was printed. */
module Text {
  import opened Bits

  predicate IsSpace(c: char) { c == ' ' || '\t' <= c <= '\r' }

  predicate IsDigit(c: char) { '0' <= c <= '9' }

  predicate StartsWith(s: string, prefix: string) { |prefix| <= |s| && s[..|prefix|] == prefix }

  function SearchFor(s: string, pat: string): (r: Option<nat>)
    ensures r.Some? ==> r.value + |pat| <= |s| && s[r.value..r.value + |pat|] == pat
  {
    if |s| < |pat| then None
    else if s[..|pat|] == pat then Some(0)
    else if s == "" then None
    else match SearchFor(s[1..], pat) case None => None case Some(i) => Some(i + 1)
  }

  /** Position of the first occurrence of a non-empty pattern. */
  function Find(s: string, pat: string): (r: Option<nat>)
    ensures r.Some? ==> r.value + |pat| <= |s| && s[r.value..r.value + |pat|] == pat
  {
    SearchFor(s, pat)
  }

  predicate Contains(s: string, pat: string) { Find(s, pat).Some? }

  /** `Find` misses nothing and returns the leftmost occurrence. */
  lemma {:induction false} FindIsLeftmost(s: string, pat: string, i: nat)
    requires i + |pat| <= |s| && s[i..i + |pat|] == pat
    ensures Find(s, pat).Some? && Find(s, pat).value <= i
  {
    if i > 0 && s[..|pat|] != pat {
      assert s[1..][i - 1..i - 1 + |pat|] == pat;
      FindIsLeftmost(s[1..], pat, i - 1);
    }
  }

  lemma {:induction false} NotFound(s: string, pat: string, c: char)
    requires c in pat && c !in s
    ensures Find(s, pat) == None
  {
    if |s| >= |pat| {
      assert s[..|pat|] != pat by { assert c !in s[..|pat|]; }
      NotFound(s[1..], pat, c);
    }
  }

  lemma {:induction false} FoundAfter(a: string, pat: string, b: string)
    requires pat != "" && pat[0] !in a
    ensures Find(a + pat + b, pat) == Some(|a|)
  {
    var s := a + pat + b;
    if a == "" {
      assert s[..|pat|] == pat;
    } else {
      assert s[..|pat|][0] == a[0];
      assert s[1..] == a[1..] + pat + b;
      FoundAfter(a[1..], pat, b);
    }
  }

  function BlankAll(s: string, from: string): string
    requires from != ""
    decreases |s|
  {
    match Find(s, from)
    case None => s
    case Some(k) => s[..k] + (" " + BlankAll(s[k + |from|..], from))
  }

  /** Every occurrence of `from`, left to right and without overlap, becomes one space. */
  function Blank(s: string, from: string): string
    requires from != ""
  {
    BlankAll(s, from)
  }

  function Shift(at: Option<nat>, n: nat): Option<nat> { if at.Some? then Some(at.value + n) else None }

  /** A prefix that a pattern can neither end in nor straddle is passed over. */
  lemma {:induction false} FindPast(x: string, y: string, pat: string)
    requires pat != "" && pat[|pat| - 1] !in x && (x == "" || x[|x| - 1] !in pat)
    ensures Find(x + y, pat) == Shift(Find(y, pat), |x|)
  {
    var s := x + y;
    if x == "" {
      assert s == y;
    } else {
      assert s[1..] == x[1..] + y;
      FindPast(x[1..], y, pat);
      if |pat| <= |s| { NoneAtStart(x, y, pat); }
      FindLater(s, pat);
    }
  }

  lemma FindLater(s: string, pat: string)
    requires s != "" && pat != "" && (|pat| <= |s| ==> s[..|pat|] != pat)
    ensures Find(s, pat) == Shift(Find(s[1..], pat), 1)
  {
  }

  lemma NoneAtStart(x: string, y: string, pat: string)
    requires x != "" && pat != "" && pat[|pat| - 1] !in x && x[|x| - 1] !in pat && |pat| <= |x + y|
    ensures (x + y)[..|pat|] != pat
  {
    var s := x + y;
    if |pat| <= |x| {
      assert s[..|pat|][|pat| - 1] == x[|pat| - 1];
    } else {
      assert s[..|pat|][|x| - 1] == x[|x| - 1];
    }
  }

  lemma BlankPast(x: string, y: string, from: string)
    requires from != "" && from[|from| - 1] !in x && (x == "" || x[|x| - 1] !in from)
    ensures Blank(x + y, from) == x + Blank(y, from)
  {
    FindPast(x, y, from);
    var at := Find(y, from);
    if at.Some? { BlankPastFound(x, y, from, at.value, at.value + |from|); }
  }

  lemma BlankPastFound(x: string, y: string, from: string, k: nat, e: nat)
    requires from != "" && e == k + |from| && Find(y, from) == Some(k) && Find(x + y, from) == Some(|x| + k)
    ensures Blank(x + y, from) == x + Blank(y, from)
  {
    BlankUnfold(y, from, k, e);
    BlankUnfold(x + y, from, |x| + k, |x| + e);
    CutPast(x, y, k, e);
    SumAssociates(x, y[..k], " " + Blank(y[e..], from));
  }

  lemma SumAssociates(a: string, b: string, c: string)
    ensures (a + b) + c == a + (b + c)
  {
  }

  lemma BlankUnfold(s: string, from: string, k: nat, e: nat)
    requires from != "" && Find(s, from) == Some(k) && e == k + |from|
    ensures e <= |s| && Blank(s, from) == s[..k] + (" " + Blank(s[e..], from))
  {
  }

  lemma CutPast(x: string, y: string, i: nat, j: nat)
    requires i <= |y| && j <= |y|
    ensures (x + y)[..|x| + i] == x + y[..i] && (x + y)[|x| + j..] == y[j..]
  {
  }

  lemma BlankNothing(s: string, from: string, c: char)
    requires c in from && c !in s
    ensures Blank(s, from) == s
  {
    NotFound(s, from, c);
  }

  lemma BlankAfter(a: string, from: string, b: string)
    requires from != "" && from[0] !in a
    ensures Blank(a + from + b, from) == a + (" " + Blank(b, from))
  {
    FoundAfter(a, from, b);
    var s := a + from + b;
    assert s[..|a|] == a && s[|a| + |from|..] == b;
  }

  lemma ReplaceStep(done: string, rest: string, from: string, k: nat, e: nat)
    requires from != "" && e == k + |from| && Find(rest, from) == Some(k)
    ensures done + Blank(rest, from) == (done + (rest[..k] + " ")) + Blank(rest[e..], from)
  {
    BlankUnfold(rest, from, k, e);
    SumAssociates(rest[..k], " ", Blank(rest[e..], from));
    SumAssociates(done, rest[..k] + " ", Blank(rest[e..], from));
  }

  /** The replacement loop: `done` is the text before the cursor, `rest` the text after it. */
  method ReplaceAll(s: string, from: string) returns (out: string)
    requires from != ""
    ensures out == Blank(s, from)
  {
    var done, rest := "", s;
    var at := Find(rest, from);
    while at.Some?
      invariant at == Find(rest, from)
      invariant Blank(s, from) == done + Blank(rest, from)
      decreases |rest|
    {
      var end := at.value + |from|;
      ReplaceStep(done, rest, from, at.value, end);
      done := done + (rest[..at.value] + " ");
      rest := rest[end..];
      at := Find(rest, from);
    }
    out := done + rest;
  }

  predicate NoSpaces(s: string) { forall i | 0 <= i < |s| :: !IsSpace(s[i]) }

  /** Length of the leading run without spaces. */
  function WordLength(s: string): (n: nat)
    ensures n <= |s| && NoSpaces(s[..n]) && (n < |s| ==> IsSpace(s[n]))
  {
    if s == "" || IsSpace(s[0]) then 0
    else
      var n := 1 + WordLength(s[1..]);
      assert s[..n] == [s[0]] + s[1..][..n - 1];
      n
  }

  function SplitWords(s: string): seq<string>
    decreases |s|
  {
    if s == "" then []
    else if IsSpace(s[0]) then SplitWords(s[1..])
    else var n := WordLength(s); [s[..n]] + SplitWords(s[n..])
  }

  /** The whitespace-separated words, as a string stream delivers them. */
  function Words(s: string): seq<string> { SplitWords(s) }

  lemma {:induction false} WordLengthIs(w: string, rest: string)
    requires NoSpaces(w) && (rest == "" || IsSpace(rest[0]))
    ensures WordLength(w + rest) == |w|
  {
    if w == "" {
      assert w + rest == rest;
    } else {
      assert (w + rest)[1..] == w[1..] + rest;
      WordLengthIs(w[1..], rest);
    }
  }

  /** A word up to the next space or the end is delivered first. */
  lemma WordThen(w: string, rest: string)
    requires w != "" && NoSpaces(w) && (rest == "" || IsSpace(rest[0]))
    ensures Words(w + rest) == [w] + Words(rest)
  {
    var s := w + rest;
    WordLengthIs(w, rest);
    assert s[..|w|] == w && s[|w|..] == rest;
    assert s[0] == w[0];
  }

  function Spaces(n: nat): (s: string)
    ensures |s| == n && forall i | 0 <= i < n :: s[i] == ' '
  {
    if n == 0 then "" else " " + Spaces(n - 1)
  }

  lemma {:induction false} WordsAfterSpaces(n: nat, rest: string)
    ensures Words(Spaces(n) + rest) == Words(rest)
  {
    if n == 0 {
      assert Spaces(0) + rest == rest;
    } else {
      assert (Spaces(n) + rest)[1..] == Spaces(n - 1) + rest;
      WordsAfterSpaces(n - 1, rest);
    }
  }

  lemma WordThenSpaces(w: string, n: nat, rest: string)
    requires w != "" && NoSpaces(w) && n > 0
    ensures Words(w + (Spaces(n) + rest)) == [w] + Words(rest)
  {
    WordThen(w, Spaces(n) + rest);
    WordsAfterSpaces(n, rest);
  }

  /** `s` without its leading spaces. */
  function SkipSpaces(s: string): string {
    if s != "" && IsSpace(s[0]) then SkipSpaces(s[1..]) else s
  }

  /** Skipping takes away white space, all that stands at the front, and nothing else. */
  lemma {:induction false} SkipTakesWhite(s: string) returns (a: string)
    ensures s == a + SkipSpaces(s) && AllWhite(a)
    ensures SkipSpaces(s) != "" ==> !IsSpace(SkipSpaces(s)[0])
  {
    a := "";
    if s != "" && IsSpace(s[0]) {
      a := SkipTakesWhite(s[1..]);
      assert s == [s[0]] + s[1..];
      a := [s[0]] + a;
    }
  }

  lemma {:induction false} SkipsWhite(a: string, s: string)
    requires AllWhite(a) && (s == "" || !IsSpace(s[0]))
    ensures SkipSpaces(a + s) == s
  {
    if a == "" {
      assert a + s == s;
    } else {
      assert IsSpace(a[0]);
      assert (a + s)[1..] == a[1..] + s;
      SkipsWhite(a[1..], s);
    }
  }

  lemma {:induction false} SkipsSpaces(n: nat, rest: string)
    requires rest == "" || !IsSpace(rest[0])
    ensures SkipSpaces(Spaces(n) + rest) == rest
  {
    if n == 0 {
      assert Spaces(0) + rest == rest;
    } else {
      assert (Spaces(n) + rest)[1..] == Spaces(n - 1) + rest;
      SkipsSpaces(n - 1, rest);
    }
  }

  /** Decimal notation. */
  function Dec(n: nat): (s: string)
    ensures s != "" && forall i | 0 <= i < |s| :: IsDigit(s[i])
  {
    if n < 10 then [DigitChar(n)] else Dec(n / 10) + [DigitChar(n % 10)]
  }

  function DigitChar(d: nat): (c: char)
    requires d < 10
    ensures IsDigit(c) && c as int - '0' as int == d
  {
    ('0' as int + d) as char
  }

  function LeadingDigits(s: string): (n: nat)
    ensures n <= |s| && (forall i | 0 <= i < n :: IsDigit(s[i])) && (n < |s| ==> !IsDigit(s[n]))
  {
    if s == "" || !IsDigit(s[0]) then 0 else 1 + LeadingDigits(s[1..])
  }

  function Value(s: string): nat
    requires forall i | 0 <= i < |s| :: IsDigit(s[i])
  {
    if s == "" then 0
    else
      assert IsDigit(s[|s| - 1]);
      10 * Value(s[..|s| - 1]) + (s[|s| - 1] as int - '0' as int)
  }

  lemma {:induction false} ValueOfDec(n: nat)
    ensures Value(Dec(n)) == n
  {
    if n >= 10 {
      ValueOfDec(n / 10);
      assert Dec(n)[..|Dec(n)| - 1] == Dec(n / 10);
    } else {
      assert Dec(n)[..0] == "";
    }
  }

  /** The number at the front of a string, as `stoull` reads it: spaces, an optional sign, digits;
      trailing text is ignored, and a negated value wraps. */
  function Stoull(s: string): Option<u64> {
    var t := SkipSpaces(s);
    if t != "" && t[0] == '-' then ReadNumber(t[1..], true)
    else if t != "" && t[0] == '+' then ReadNumber(t[1..], false)
    else ReadNumber(t, false)
  }

  function ReadNumber(s: string, neg: bool): Option<u64> {
    var n := LeadingDigits(s);
    if n == 0 || Value(s[..n]) > ALL_ONES then None
    else Some(if neg then WrapSub(0, Value(s[..n])) else Value(s[..n]))
  }

  lemma {:induction false} LeadingDigitsOf(s: string, rest: string)
    requires forall i | 0 <= i < |s| :: IsDigit(s[i])
    requires rest == "" || !IsDigit(rest[0])
    ensures LeadingDigits(s + rest) == |s|
  {
    if s == "" {
      assert s + rest == rest;
    } else {
      assert (s + rest)[1..] == s[1..] + rest;
      LeadingDigitsOf(s[1..], rest);
    }
  }

  /** A number with an optional sign and anything after it: a value beyond 64 bits fails, and a minus
      sign negates modulo 2^64. */
  lemma StoullReads(sign: string, n: nat, rest: string)
    requires sign in {"", "+", "-"} && (rest == "" || !IsDigit(rest[0]))
    ensures Stoull(sign + Dec(n) + rest) ==
            if n > 0xFFFF_FFFF_FFFF_FFFF then None
            else if sign == "-" && n > 0 then Some(0x1_0000_0000_0000_0000 - n)
            else Some(n)
  {
    var body := Dec(n) + rest;
    ReadNumberOf(n, rest, sign == "-");
    SumAssociates(sign, Dec(n), rest);
    if sign == "" {
      assert "" + body == body;
      assert IsDigit(Dec(n)[0]) && body[0] == Dec(n)[0];
      DigitThen(body);
    } else {
      SignThen(sign, body);
    }
  }

  lemma DigitThen(body: string)
    requires body != "" && IsDigit(body[0])
    ensures Stoull(body) == ReadNumber(body, false)
  {
    assert SkipSpaces(body) == body;
  }

  lemma SignThen(sign: string, body: string)
    requires sign in {"+", "-"}
    ensures Stoull(sign + body) == ReadNumber(body, sign == "-")
  {
    var s := sign + body;
    assert s[0] == sign[0] && s[1..] == body;
  }

  lemma ReadNumberOf(n: nat, rest: string, neg: bool)
    requires rest == "" || !IsDigit(rest[0])
    ensures ReadNumber(Dec(n) + rest, neg) ==
            if n > 0xFFFF_FFFF_FFFF_FFFF then None
            else if neg && n > 0 then Some(0x1_0000_0000_0000_0000 - n)
            else Some(n)
  {
    var d := Dec(n);
    LeadingDigitsOf(d, rest);
    assert (d + rest)[..|d|] == d;
    ValueOfDec(n);
  }

  /** Without a digit at its front, after an optional sign, a word is no number. */
  lemma StoullFails(sign: string, rest: string)
    requires sign in {"", "+", "-"} && (rest == "" || !IsDigit(rest[0]))
    requires sign == "" && rest != "" ==> !IsSpace(rest[0]) && rest[0] != '+' && rest[0] != '-'
    ensures Stoull(sign + rest) == None
  {
    if sign == "" {
      assert sign + rest == rest;
    } else {
      SignThen(sign, rest);
    }
  }

  lemma StoullOfDec(n: nat)
    requires n <= ALL_ONES
    ensures Stoull(Dec(n)) == Some(n)
  {
    StoullReads("", n, "");
    assert "" + Dec(n) + "" == Dec(n);
  }

  /** `s` without leading and trailing spaces. */
  function Trim(s: string): string
    decreases |s|
  {
    if s == "" then ""
    else if IsSpace(s[0]) then Trim(s[1..])
    else if IsSpace(s[|s| - 1]) then Trim(s[..|s| - 1])
    else s
  }

  /** The six characters `isspace` accepts. */
  predicate AllWhite(s: string) { forall i | 0 <= i < |s| :: s[i] as int in {32, 9, 10, 11, 12, 13} }

  lemma {:induction false} TrimEnd(s: string, c: char)
    requires AllWhite([c])
    ensures Trim(s + [c]) == Trim(s)
    decreases |s|
  {
    assert IsSpace([c][0]);
    var t := s + [c];
    if s == "" {
      assert t[1..] == "";
    } else if IsSpace(s[0]) {
      assert t[1..] == s[1..] + [c];
      TrimEnd(s[1..], c);
    } else {
      assert t[..|t| - 1] == s;
    }
  }

  /** White space around a text does not matter. */
  lemma {:induction false} TrimIgnores(a: string, s: string, b: string)
    requires AllWhite(a) && AllWhite(b)
    ensures Trim(a + s + b) == Trim(s)
    decreases |a| + |b|
  {
    if a != "" {
      assert IsSpace(a[0]);
      assert (a + s + b)[1..] == a[1..] + s + b;
      TrimIgnores(a[1..], s, b);
    } else if b != "" {
      var n := |b| - 1;
      TrimIgnores(a, s, b[..n]);
      assert a + s + b == (a + s + b[..n]) + [b[n]];
      assert AllWhite([b[n]]);
      TrimEnd(a + s + b[..n], b[n]);
    } else {
      assert a + s + b == s;
    }
  }

  /** And nothing but white space is taken away. */
  lemma {:induction false} TrimTakesWhite(s: string) returns (a: string, b: string)
    ensures s == a + Trim(s) + b && AllWhite(a) && AllWhite(b)
    decreases |s|
  {
    a, b := "", "";
    if s != "" && IsSpace(s[0]) {
      a, b := TrimTakesWhite(s[1..]);
      assert s == [s[0]] + s[1..];
      a := [s[0]] + a;
    } else if s != "" && IsSpace(s[|s| - 1]) {
      var n := |s| - 1;
      a, b := TrimTakesWhite(s[..n]);
      assert s == s[..n] + [s[n]];
      b := b + [s[n]];
    }
  }

  lemma {:induction false} TrimIsIdentityIff(s: string)
    ensures |Trim(s)| <= |s|
    ensures |Trim(s)| == |s| <==> s == "" || (!IsSpace(s[0]) && !IsSpace(s[|s| - 1]))
    ensures |Trim(s)| == |s| ==> Trim(s) == s
    decreases |s|
  {
    if s != "" && IsSpace(s[0]) {
      TrimIsIdentityIff(s[1..]);
    } else if s != "" && IsSpace(s[|s| - 1]) {
      TrimIsIdentityIff(s[..|s| - 1]);
    }
  }

  /** Removes one pair of surrounding double quotes. A lone quote is its own pair. */
  function Unquote(s: string): string {
    if s != "" && s[0] == '"' && s[|s| - 1] == '"' then (if |s| == 1 then "" else s[1..|s| - 1]) else s
  }
}
