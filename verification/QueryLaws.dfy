/** What the dispatcher makes of whole query strings, stated on their text. */
module QueryLaws {
  import opened Bits
  import opened Text
  import opened QueryText

  /** White space around a query does not matter. */
  lemma ParsedIgnoresMargins(a: string, q: string, b: string)
    requires AllWhite(a) && AllWhite(b)
    ensures Parsed(a + q + b) == Parsed(q)
  {
    TrimIgnores(a, q, b);
  }

  /** A comparison operator stands at `k`. */
  predicate OperatorAt(q: string, k: nat) {
    (k + 2 <= |q| && q[k..k + 2] == "==") || (k < |q| && (q[k] == '>' || q[k] == '<'))
  }

  ghost predicate HasOperator(q: string) { exists k :: OperatorAt(q, k) }

  lemma IsNumericalIff(q: string)
    ensures IsNumerical(q) <==> HasOperator(q)
  {
    FoundOperator(q);
    if k: nat :| OperatorAt(q, k) { OperatorFound(q, k); }
  }

  lemma FoundOperator(q: string)
    ensures IsNumerical(q) ==> HasOperator(q)
  {
    if Contains(q, "==") {
      assert OperatorAt(q, Find(q, "==").value);
    } else if Contains(q, ">") {
      var k := Find(q, ">").value;
      assert q[k..k + 1][0] == q[k];
      assert OperatorAt(q, k);
    } else if Contains(q, "<") {
      var k := Find(q, "<").value;
      assert q[k..k + 1][0] == q[k];
      assert OperatorAt(q, k);
    }
  }

  lemma OperatorFound(q: string, k: nat)
    requires OperatorAt(q, k)
    ensures IsNumerical(q)
  {
    if k + 2 <= |q| && q[k..k + 2] == "==" {
      FindIsLeftmost(q, "==", k);
    } else {
      assert q[k..k + 1] == [q[k]];
      FindIsLeftmost(q, [q[k]], k);
    }
  }

  predicate NoOperatorChars(s: string) { forall i | 0 <= i < |s| :: s[i] != '=' && s[i] != '>' && s[i] != '<' }

  lemma OperatorShifts(a: string, q: string, b: string, k: nat)
    requires k < |q|
    ensures OperatorAt(q, k) ==> OperatorAt(a + q + b, |a| + k)
    ensures NoOperatorChars(b) && OperatorAt(a + q + b, |a| + k) ==> OperatorAt(q, k)
  {
    var s := a + q + b;
    assert s[|a| + k] == q[k];
    if k + 2 <= |q| {
      assert s[|a| + k..|a| + k + 2] == q[k..k + 2];
    } else if |a| + k + 2 <= |s| {
      assert s[|a| + k..|a| + k + 2][1] == b[0];
    }
  }

  /** Text around a query that holds none of their characters makes no operators. */
  lemma OperatorWithin(a: string, q: string, b: string)
    requires NoOperatorChars(a) && NoOperatorChars(b)
    ensures HasOperator(a + q + b) <==> HasOperator(q)
  {
    var s := a + q + b;
    if k: nat :| OperatorAt(q, k) {
      assert k < |q|;
      OperatorShifts(a, q, b, k);
    }
    if k: nat :| OperatorAt(s, k) {
      OperatorPlace(a, q, b, k);
      OperatorShifts(a, q, b, k - |a|);
    }
  }

  lemma OperatorPlace(a: string, q: string, b: string, k: nat)
    requires NoOperatorChars(a) && NoOperatorChars(b) && OperatorAt(a + q + b, k)
    ensures |a| <= k < |a| + |q|
  {
    OperatorChar(a + q + b, k);
    CharOfSum(a, q, b, k);
  }

  lemma OperatorChar(s: string, k: nat)
    requires OperatorAt(s, k)
    ensures k < |s| && (s[k] == '=' || s[k] == '>' || s[k] == '<')
  {
    if k + 2 <= |s| && s[k..k + 2] == "==" { assert s[k..k + 2][0] == s[k]; }
  }

  lemma CharOfSum(a: string, q: string, b: string, k: nat)
    requires k < |a + q + b|
    ensures (a + q + b)[k] == if k < |a| then a[k] else if k < |a| + |q| then q[k - |a|] else b[k - |a| - |q|]
  {
  }

  /** A query is numerical exactly when `==`, `>` or `<` occurs in it. */
  lemma NumericalIff(q: string)
    ensures Parsed(q).Numerical? <==> HasOperator(q)
  {
    var a, b := TrimTakesWhite(q);
    assert NoOperatorChars(a) && NoOperatorChars(b);
    OperatorWithin(a, Trim(q), b);
    IsNumericalIff(Trim(q));
  }

  lemma UnquoteQuoted(p: string)
    ensures Unquote("\"" + p + "\"") == p
  {
    var q := "\"" + p + "\"";
    assert q[1..|q| - 1] == p;
  }

  lemma ParsedScalar(q: string)
    requires !HasOperator(q) && q != "" && !IsSpace(q[0]) && !IsSpace(q[|q| - 1])
    ensures Parsed(q) == Scalar(ScalarPattern(q))
  {
    TrimIsIdentityIff(q);
    IsNumericalIff(q);
  }

  /** A quoted text is searched for without its quotes. */
  lemma QuotedParses(p: string)
    requires !HasOperator(p)
    ensures Parsed("\"" + p + "\"") == Scalar(p)
  {
    var q := "\"" + p + "\"";
    OperatorWithin("\"", p, "\"");
    ParsedScalar(q);
    assert !StartsWith(q, "contains(") by { assert |q| >= 9 ==> q[..9][0] == '"'; }
    UnquoteQuoted(p);
  }

  /** The argument of `contains(...)`, with any margins. */
  lemma ContainsArgument(a: string, inner: string, b: string)
    requires AllWhite(a) && AllWhite(b) && !HasOperator(inner)
    requires inner != "" && !IsSpace(inner[0]) && !IsSpace(inner[|inner| - 1])
    ensures Parsed("contains(" + a + inner + b + ")") == Scalar(Unquote(inner))
  {
    var q, arg := "contains(" + a + inner + b + ")", a + inner + b;
    assert q == "contains(" + arg + ")";
    assert NoOperatorChars(a) && NoOperatorChars(b);
    OperatorWithin(a, inner, b);
    OperatorWithin("contains(", arg, ")");
    ParsedScalar(q);
    assert q[..9] == "contains(" && q[9..|q| - 1] == arg;
    TrimIgnores(a, inner, b);
    TrimIsIdentityIff(inner);
  }

  /** `contains("p")` searches for p, and so does `contains(p)` when p has no quotes or margins of its own. */
  lemma ContainsParses(a: string, p: string, b: string)
    requires AllWhite(a) && AllWhite(b) && !HasOperator(p)
    ensures Parsed("contains(" + a + ("\"" + p + "\"") + b + ")") == Scalar(p)
    ensures p != "" && !AllWhite([p[0]]) && !AllWhite([p[|p| - 1]]) && p[0] != '"' ==>
              Parsed("contains(" + a + p + b + ")") == Scalar(p)
  {
    OperatorWithin("\"", p, "\"");
    ContainsArgument(a, "\"" + p + "\"", b);
    UnquoteQuoted(p);
    if p != "" && !AllWhite([p[0]]) && !AllWhite([p[|p| - 1]]) && p[0] != '"' {
      assert !IsSpace(p[0]) && !IsSpace(p[|p| - 1]) by { assert [p[0]][0] == p[0] && [p[|p| - 1]][0] == p[|p| - 1]; }
      ContainsArgument(a, p, b);
    }
  }

  /** A piece of a query: a comparison, or something that separates comparisons. */
  datatype Token = Cmp(f: Field, i: nat, j: nat, n: nat) | White(c: char) | Amp | Bar | AndUpper | AndLower

  function TokenText(t: Token): string {
    match t
    case Cmp(f, i, j, n) => Spelled(f, i, j, n)
    case White(c) => [c]
    case Amp => "&"
    case Bar => "|"
    case AndUpper => "AND"
    case AndLower => "and"
  }

  function Concat(ts: seq<Token>): string {
    if ts == [] then "" else TokenText(ts[0]) + Concat(ts[1..])
  }

  /** The text of a query. */
  function Join(ts: seq<Token>): string { Concat(ts) }

  lemma JoinCons(ts: seq<Token>)
    requires ts != []
    ensures Join(ts) == TokenText(ts[0]) + Join(ts[1..])
  {
  }

  lemma JoinOne(t: Token)
    ensures Join([t]) == TokenText(t)
  {
    JoinCons([t]);
    assert [t][1..] == [] && TokenText(t) + "" == TokenText(t);
  }

  /** White space is white, comparisons are well spaced and within 64 bits. */
  predicate GoodToken(t: Token) {
    && (t.White? ==> AllWhite([t.c]))
    && (t.Cmp? ==> WellSpaced(t.i, t.j) && t.n <= ALL_ONES)
  }

  /** No two comparisons touch. */
  ghost predicate Separated(ts: seq<Token>) {
    && (forall k | 0 <= k < |ts| :: GoodToken(ts[k]))
    && (forall k | 0 <= k < |ts| - 1 :: !(ts[k].Cmp? && ts[k + 1].Cmp?))
  }

  function LastFrom(ts: seq<Token>, f: Field, v: u64): u64
    requires forall k | 0 <= k < |ts| :: GoodToken(ts[k])
  {
    if ts == [] then v
    else
      assert GoodToken(ts[0]);
      LastFrom(ts[1..], f, if ts[0].Cmp? && ts[0].f == f then ts[0].n else v)
  }

  /** The value of the last comparison on a field, or `v` when there is none. */
  function LastValue(ts: seq<Token>, f: Field, v: u64): u64
    requires forall k | 0 <= k < |ts| :: GoodToken(ts[k])
  {
    LastFrom(ts, f, v)
  }

  /** The four rewritings, each as a change of one kind of separator into a space. */
  datatype Stage = AmpStage | BarStage | UpperStage | LowerStage

  function Rewrite(s: string, stage: Stage): string {
    match stage
    case AmpStage => BlankChar(s, '&')
    case BarStage => BlankChar(s, '|')
    case UpperStage => Blank(s, "AND")
    case LowerStage => Blank(s, "and")
  }

  function RewriteToken(t: Token, stage: Stage): Token {
    match stage
    case AmpStage => if t.Amp? then White(' ') else t
    case BarStage => if t.Bar? then White(' ') else t
    case UpperStage => if t.AndUpper? then White(' ') else t
    case LowerStage => if t.AndLower? then White(' ') else t
  }

  function RewriteAll(ts: seq<Token>, stage: Stage): (rs: seq<Token>)
    ensures |rs| == |ts| && forall k | 0 <= k < |ts| :: rs[k] == RewriteToken(ts[k], stage)
  {
    seq(|ts|, k requires 0 <= k < |ts| => RewriteToken(ts[k], stage))
  }

  lemma BlankCharSum(x: string, y: string, c: char)
    ensures BlankChar(x + y, c) == BlankChar(x, c) + BlankChar(y, c)
  {
  }

  /** What every token but the one a stage is for looks like to that stage. */
  lemma TokenShape(t: Token)
    requires GoodToken(t)
    ensures var x := TokenText(t);
            && x != ""
            && ('&' in x ==> t.Amp?) && ('|' in x ==> t.Bar?)
            && ('D' in x ==> t.AndUpper?) && ('d' in x ==> t.AndLower?)
            && (x[|x| - 1] in "AND" ==> t.AndUpper?) && (x[|x| - 1] in "and" ==> t.AndLower?)
  {
    if t.Cmp? {
      SpelledShape(t.f, t.i, t.j, t.n);
      CmpShape(t.f, t.i, t.j, t.n);
    } else if t.White? {
      assert IsSpace([t.c][0]);
    }
  }

  lemma CmpShape(f: Field, i: nat, j: nat, n: nat)
    ensures var x := Spelled(f, i, j, n); x != "" && 'D' !in x && IsDigit(x[|x| - 1])
  {
    DecHasNo(n, 'D');
    assert 'D' !in Spaces(i) && 'D' !in Spaces(j) && 'D' !in Key(f) && 'D' !in Op(f);
    var x := Spelled(f, i, j, n);
    assert x[|x| - 1] == Dec(n)[|Dec(n)| - 1];
  }

  lemma RewriteHead(t: Token, rest: string, stage: Stage)
    requires GoodToken(t)
    ensures Rewrite(TokenText(t) + rest, stage) == TokenText(RewriteToken(t, stage)) + Rewrite(rest, stage)
  {
    match stage
    case AmpStage => CharStageHead(t, rest, '&', stage);
    case BarStage => CharStageHead(t, rest, '|', stage);
    case UpperStage => WordStageHead(t, rest, "AND", stage);
    case LowerStage => WordStageHead(t, rest, "and", stage);
  }

  lemma CharStageHead(t: Token, rest: string, c: char, stage: Stage)
    requires GoodToken(t) && ((stage.AmpStage? && c == '&') || (stage.BarStage? && c == '|'))
    ensures BlankChar(TokenText(t) + rest, c) == TokenText(RewriteToken(t, stage)) + BlankChar(rest, c)
  {
    TokenShape(t);
    CharHead(TokenText(t), rest, c);
  }

  lemma WordStageHead(t: Token, rest: string, from: string, stage: Stage)
    requires GoodToken(t) && ((stage.UpperStage? && from == "AND") || (stage.LowerStage? && from == "and"))
    ensures Blank(TokenText(t) + rest, from) == TokenText(RewriteToken(t, stage)) + Blank(rest, from)
  {
    TokenShape(t);
    WordHead(TokenText(t), rest, from);
  }

  lemma CharHead(x: string, rest: string, c: char)
    ensures x == [c] ==> BlankChar(x + rest, c) == " " + BlankChar(rest, c)
    ensures c !in x ==> BlankChar(x + rest, c) == x + BlankChar(rest, c)
  {
    BlankCharSum(x, rest, c);
  }

  lemma WordHead(x: string, rest: string, from: string)
    requires from != "" && x != ""
    ensures x == from ==> Blank(x + rest, from) == " " + Blank(rest, from)
    ensures from[|from| - 1] !in x && x[|x| - 1] !in from ==> Blank(x + rest, from) == x + Blank(rest, from)
  {
    if x == from {
      BlankFirst(from, rest);
    } else if from[|from| - 1] !in x && x[|x| - 1] !in from {
      BlankPast(x, rest, from);
    }
  }

  lemma BlankFirst(from: string, rest: string)
    requires from != ""
    ensures Blank(from + rest, from) == " " + Blank(rest, from)
  {
    BlankAfter("", from, rest);
    assert "" + from == from;
    assert "" + (" " + Blank(rest, from)) == " " + Blank(rest, from);
  }

  lemma {:induction false} RewriteJoin(ts: seq<Token>, stage: Stage)
    requires forall k | 0 <= k < |ts| :: GoodToken(ts[k])
    ensures Rewrite(Join(ts), stage) == Join(RewriteAll(ts, stage))
  {
    if ts == [] {
      assert Rewrite("", stage) == "";
    } else {
      RewriteJoin(ts[1..], stage);
      RewriteHead(ts[0], Join(ts[1..]), stage);
      assert RewriteAll(ts, stage)[1..] == RewriteAll(ts[1..], stage);
    }
  }

  function Plained(ts: seq<Token>): seq<Token> {
    RewriteAll(RewriteAll(RewriteAll(RewriteAll(ts, AmpStage), BarStage), UpperStage), LowerStage)
  }

  /** Cleaning turns every separator into a space and leaves the comparisons alone. */
  lemma CleanedJoin(ts: seq<Token>)
    requires forall k | 0 <= k < |ts| :: GoodToken(ts[k])
    ensures Cleaned(Join(ts)) == Join(Plained(ts))
  {
    var t1 := RewriteAll(ts, AmpStage);
    var t2 := RewriteAll(t1, BarStage);
    var t3 := RewriteAll(t2, UpperStage);
    RewriteJoin(ts, AmpStage);
    RewriteJoin(t1, BarStage);
    RewriteJoin(t2, UpperStage);
    RewriteJoin(t3, LowerStage);
  }

  lemma PlainedTokens(ts: seq<Token>)
    requires Separated(ts)
    ensures Separated(Plained(ts)) && |Plained(ts)| == |ts|
    ensures forall k | 0 <= k < |ts| :: Plained(ts)[k] == if ts[k].Cmp? || ts[k].White? then ts[k] else White(' ')
  {
  }

  function CollectWords(ts: seq<Token>): seq<string> {
    if ts == [] then []
    else (if ts[0].Cmp? then SpelledWords(ts[0].f, ts[0].i, ts[0].j, ts[0].n) else []) + CollectWords(ts[1..])
  }

  /** The words of the comparisons, in order. */
  function AllWords(ts: seq<Token>): seq<string> { CollectWords(ts) }

  lemma {:induction false} WordsJoin(ts: seq<Token>)
    requires Separated(ts) && forall k | 0 <= k < |ts| :: ts[k].Cmp? || ts[k].White?
    ensures Words(Join(ts)) == AllWords(ts)
  {
    if ts != [] {
      var t, rest := ts[0], ts[1..];
      WordsJoin(rest);
      if t.Cmp? {
        if rest != [] {
          assert ts[1] == rest[0] && rest[0].White? && GoodToken(rest[0]);
          assert Join(rest)[0] == rest[0].c && IsSpace([rest[0].c][0]);
        }
        SpelledWordsAre(t.f, t.i, t.j, t.n, Join(rest));
      } else {
        assert IsSpace([t.c][0]);
        assert Join(ts)[0] == t.c && Join(ts)[1..] == Join(rest);
      }
    }
  }

  lemma {:induction false} TermsOfTokens(ts: seq<Token>, s: u64, l: u64)
    requires forall k | 0 <= k < |ts| :: GoodToken(ts[k])
    ensures Terms(AllWords(ts), s, l) == (LastValue(ts, Status, s), LastValue(ts, Latency, l))
  {
    if ts != [] {
      var t, rest := ts[0], ts[1..];
      if t.Cmp? {
        SpelledTerms(t.f, t.i, t.j, t.n, AllWords(rest), s, l);
        TermsOfTokens(rest, if t.f.Status? then t.n else s, if t.f.Latency? then t.n else l);
      } else {
        assert [] + AllWords(rest) == AllWords(rest);
        TermsOfTokens(rest, s, l);
      }
    }
  }

  lemma {:induction false} LastValuePlained(ts: seq<Token>, us: seq<Token>, f: Field, v: u64)
    requires |us| == |ts| && (forall k | 0 <= k < |ts| :: GoodToken(ts[k]) && GoodToken(us[k]))
    requires forall k | 0 <= k < |ts| :: us[k] == ts[k] || (!us[k].Cmp? && !ts[k].Cmp?)
    ensures LastValue(us, f, v) == LastValue(ts, f, v)
  {
    if ts != [] { LastValuePlained(ts[1..], us[1..], f, if ts[0].Cmp? && ts[0].f == f then ts[0].n else v); }
  }

  lemma {:induction false} JoinSum(a: seq<Token>, b: seq<Token>)
    ensures Join(a + b) == Join(a) + Join(b)
  {
    if a == [] {
      assert a + b == b;
    } else {
      assert (a + b)[1..] == a[1..] + b;
      JoinSum(a[1..], b);
    }
  }

  /** A query with a comparison among its tokens holds that comparison's operator. */
  lemma JoinHasOperator(ts: seq<Token>, k: nat)
    requires k < |ts| && ts[k].Cmp?
    ensures HasOperator(Join(ts))
  {
    var t := ts[k];
    assert ts == ts[..k] + ([t] + ts[k + 1..]);
    JoinSum(ts[..k], [t] + ts[k + 1..]);
    var before, after := Join(ts[..k]), Join(ts[k + 1..]);
    assert ([t] + ts[k + 1..])[1..] == ts[k + 1..];
    SpelledHasOperator(before, t.f, t.i, t.j, t.n, after);
  }

  lemma SpelledHasOperator(a: string, f: Field, i: nat, j: nat, n: nat, b: string)
    ensures HasOperator(a + (Spelled(f, i, j, n) + b))
  {
    var q, k := a + (Spelled(f, i, j, n) + b), |a| + |Key(f)| + i;
    assert Spelled(f, i, j, n)[|Key(f)| + i..|Key(f)| + i + |Op(f)|] == Op(f);
    assert q[k..k + |Op(f)|] == Op(f);
    assert f.Latency? ==> q[k] == '>' by { assert f.Latency? ==> q[k..k + 1][0] == '>'; }
    assert OperatorAt(q, k);
  }

  /** The query proper: no white space at either end. */
  lemma TokensParse(ts: seq<Token>, c: nat)
    requires Separated(ts) && c < |ts| && ts[c].Cmp? && !ts[0].White? && !ts[|ts| - 1].White?
    ensures Parsed(Join(ts)) == Numerical(LastValue(ts, Status, 0), LastValue(ts, Latency, 0))
  {
    var q := Join(ts);
    JoinHasOperator(ts, c);
    IsNumericalIff(q);
    JoinEnds(ts);
    TrimIsIdentityIff(q);
    CleanedJoin(ts);
    PlainedTokens(ts);
    var us := Plained(ts);
    WordsJoin(us);
    TermsOfTokens(us, 0, 0);
    LastValuePlained(ts, us, Status, 0);
    LastValuePlained(ts, us, Latency, 0);
  }

  lemma JoinEnds(ts: seq<Token>)
    requires Separated(ts) && ts != [] && !ts[0].White? && !ts[|ts| - 1].White?
    ensures var q := Join(ts); q != "" && !IsSpace(q[0]) && !IsSpace(q[|q| - 1])
  {
    var n := |ts| - 1;
    TokenEnds(ts[0]);
    TokenEnds(ts[n]);
    assert ts == ts[..n] + [ts[n]];
    JoinSum(ts[..n], [ts[n]]);
    JoinOne(ts[n]);
    JoinCons(ts);
  }

  lemma TokenEnds(t: Token)
    requires GoodToken(t) && !t.White?
    ensures var x := TokenText(t); x != "" && !IsSpace(x[0]) && !IsSpace(x[|x| - 1])
  {
    if t.Cmp? { SpelledShape(t.f, t.i, t.j, t.n); }
  }

  /** Any query built of well-spaced comparisons, separated by any mix of white space, `&`, `|`, `AND`
      and `and`: the dispatcher reads the last status and the last latency, 0 for one that is absent. */
  lemma {:induction false} QueryReads(ts: seq<Token>, c: nat)
    requires Separated(ts) && c < |ts| && ts[c].Cmp?
    ensures Parsed(Join(ts)) == Numerical(LastValue(ts, Status, 0), LastValue(ts, Latency, 0))
    decreases |ts|
  {
    var n := |ts| - 1;
    if ts[0].White? {
      assert forall k | 0 <= k < n :: ts[1..][k] == ts[k + 1];
      QueryReads(ts[1..], c - 1);
      FirstWhiteDrops(ts);
    } else if ts[n].White? {
      QueryReads(ts[..n], c);
      assert ts == ts[..n] + [ts[n]];
      LastWhiteDrops(ts[..n], ts[n]);
    } else {
      TokensParse(ts, c);
    }
  }

  lemma FirstWhiteDrops(ts: seq<Token>)
    requires ts != [] && GoodToken(ts[0]) && ts[0].White?
    ensures Parsed(Join(ts)) == Parsed(Join(ts[1..]))
  {
    JoinCons(ts);
    assert Join(ts) == [ts[0].c] + Join(ts[1..]) + "";
    ParsedIgnoresMargins([ts[0].c], Join(ts[1..]), "");
  }

  lemma LastWhiteDrops(ts: seq<Token>, t: Token)
    requires (forall k | 0 <= k < |ts| :: GoodToken(ts[k])) && GoodToken(t) && t.White?
    ensures Parsed(Join(ts + [t])) == Parsed(Join(ts))
    ensures LastValue(ts + [t], Status, 0) == LastValue(ts, Status, 0)
    ensures LastValue(ts + [t], Latency, 0) == LastValue(ts, Latency, 0)
  {
    JoinSum(ts, [t]);
    JoinOne(t);
    assert Join(ts) + [t.c] == "" + Join(ts) + [t.c];
    ParsedIgnoresMargins("", Join(ts), [t.c]);
    LastValueSnoc(ts, t, Status, 0);
    LastValueSnoc(ts, t, Latency, 0);
  }

  lemma {:induction false} LastValueSnoc(ts: seq<Token>, t: Token, f: Field, v: u64)
    requires (forall k | 0 <= k < |ts| :: GoodToken(ts[k])) && GoodToken(t) && !t.Cmp?
    ensures LastValue(ts + [t], f, v) == LastValue(ts, f, v)
  {
    if ts == [] {
      assert (ts + [t])[1..] == [];
    } else {
      assert (ts + [t])[1..] == ts[1..] + [t];
      LastValueSnoc(ts[1..], t, f, if ts[0].Cmp? && ts[0].f == f then ts[0].n else v);
    }
  }

  lemma JoinFour(a: Token, b: Token, c: Token, d: Token)
    ensures Join([a, b, c, d]) == TokenText(a) + (TokenText(b) + (TokenText(c) + TokenText(d)))
  {
    assert [a, b, c, d][1..] == [b, c, d] && [b, c, d][1..] == [c, d] && [c, d][1..] == [d] && [d][1..] == [];
    JoinCons([a, b, c, d]);
    JoinCons([b, c, d]);
    JoinCons([c, d]);
    JoinCons([d]);
    assert TokenText(d) + "" == TokenText(d);
  }

  /** The spelling without spaces and with `&&`. */
  lemma AmpersandParses(n: nat, m: nat)
    requires n <= ALL_ONES && m <= ALL_ONES
    ensures Parsed(("status==" + Dec(n)) + ("&" + ("&" + ("latency>" + Dec(m))))) == Numerical(n, m)
  {
    var first, second := Cmp(Status, 0, 0, n), Cmp(Latency, 0, 0, m);
    var ts := [first, Amp, Amp, second];
    QueryReads(ts, 0);
    JoinFour(first, Amp, Amp, second);
    Unspaced(Status, n);
    Unspaced(Latency, m);
    LastOfFour(first, Amp, Amp, second, Status, 0);
    LastOfFour(first, Amp, Amp, second, Latency, 0);
  }

  lemma LastOfFour(a: Token, b: Token, c: Token, d: Token, f: Field, v: u64)
    requires GoodToken(a) && GoodToken(d) && GoodToken(b) && GoodToken(c) && !b.Cmp? && !c.Cmp?
    ensures LastValue([a, b, c, d], f, v) ==
            if d.Cmp? && d.f == f then d.n else if a.Cmp? && a.f == f then a.n else v
  {
    assert [a, b, c, d][1..] == [b, c, d] && [b, c, d][1..] == [c, d] && [c, d][1..] == [d] && [d][1..] == [];
    var w: u64 := if a.Cmp? && a.f == f then a.n else v;
    assert LastValue([a, b, c, d], f, v) == LastValue([b, c, d], f, w);
    assert LastValue([b, c, d], f, w) == LastValue([c, d], f, w);
    assert LastValue([c, d], f, w) == LastValue([d], f, w);
    var x: u64 := if d.Cmp? && d.f == f then d.n else w;
    assert LastValue([d], f, w) == LastValue([], f, x);
  }

  lemma Unspaced(f: Field, n: nat)
    ensures Spelled(f, 0, 0, n) == (if f.Status? then "status==" else "latency>") + Dec(n)
  {
    AttachedIsSpread(Key(f), Op(f), 0, Dec(n));
    assert Spaces(0) + Dec(n) == Dec(n);
    assert Key(f) + Op(f) == if f.Status? then "status==" else "latency>";
  }

  /** The text `latency < n`. */
  function LessThan(n: nat): string { Spaced("latency", 1, "<", 1, Dec(n)) }

  lemma LessThanShape(n: nat)
    ensures LessThan(n) == "latency < " + Dec(n)
    ensures Plain(LessThan(n)) && !IsSpace(LessThan(n)[|LessThan(n)| - 1]) && OperatorAt(LessThan(n), 8)
  {
    var q, d := LessThan(n), Dec(n);
    assert Spaces(1) == " ";
    assert q == "latency < " + d;
    assert IsDigit(d[|d| - 1]) && q[|q| - 1] == d[|d| - 1];
    DecHasNo(n, '&');
    DecHasNo(n, '|');
    DecHasNo(n, 'A');
    DecHasNo(n, 'd');
  }

  lemma LessThanWords(n: nat)
    ensures Words(LessThan(n)) == ["latency", "<", Dec(n)]
  {
    var d := Dec(n);
    assert NoSpaces(d) by { assert forall k | 0 <= k < |d| :: IsDigit(d[k]); }
    SpacedWordsAre("latency", 1, "<", 1, d, "");
    assert LessThan(n) + "" == LessThan(n) && Words("") == [];
  }

  lemma DetachedTerm(word: string, op: string, any: string, val: string)
    requires Find(word, op) == None
    ensures Term(word, op, [any, val], 0) == (OrKeep(Stoull(val), 0), [])
  {
    assert [any, val][2..] == [];
  }

  lemma LessThanTerms(n: nat)
    requires n <= ALL_ONES
    ensures Terms(["latency", "<", Dec(n)], 0, 0) == (0, n)
  {
    var words := ["latency", "<", Dec(n)];
    FirstWord(Latency, "latency");
    NotFound("latency", ">", '>');
    StoullOfDec(n);
    DetachedTerm("latency", ">", "<", Dec(n));
    assert words[1..] == ["<", Dec(n)];
    TermsUnfold(Latency, words, 0, 0);
  }

  /** A less-than comparison is numerical, and is read as a greater-than one. */
  lemma LessThanRead(n: nat)
    requires n <= ALL_ONES
    ensures Parsed("latency < " + Dec(n)) == Numerical(0, n)
  {
    var q := LessThan(n);
    LessThanShape(n);
    IsNumericalIff(q);
    TrimIsIdentityIff(q);
    PlainIsClean(q);
    LessThanWords(n);
    LessThanTerms(n);
  }

  /** A query of one word. */
  lemma WordParsed(w: string)
    requires w != "" && NoSpaces(w) && Plain(w) && HasOperator(w)
    ensures var t := Terms([w], 0, 0); Parsed(w) == Numerical(t.0, t.1)
  {
    assert !IsSpace(w[0]) && !IsSpace(w[|w| - 1]);
    TrimIsIdentityIff(w);
    IsNumericalIff(w);
    PlainIsClean(w);
    assert w + "" == w && [w] + Words("") == [w];
    WordThen(w, "");
  }

  /** A field name may be the end of a longer word: `http_status==n` is a status. */
  lemma PrefixedField(u: string, f: Field, n: nat)
    requires NoSpaces(u) && Plain(u) && n <= ALL_ONES && '=' !in u && '>' !in u && 's' !in u
    ensures Parsed(u + Key(f) + Op(f) + Dec(n)) == if f.Status? then Numerical(n, 0) else Numerical(0, n)
  {
    PrefixedShape(u, f, n);
    WordParsed(u + Key(f) + Op(f) + Dec(n));
    PrefixedTerms(u, f, n);
  }

  lemma PrefixedShape(u: string, f: Field, n: nat)
    requires NoSpaces(u) && Plain(u)
    ensures var w := u + Key(f) + Op(f) + Dec(n); w != "" && Plain(w) && NoSpaces(w) && HasOperator(w)
  {
    var x, d := u + Key(f), Dec(n);
    assert NoSpaces(d) by { assert forall k | 0 <= k < |d| :: IsDigit(d[k]); }
    PlainWordSum(u, Key(f));
    PlainWordSum(x, Op(f));
    DecHasNo(n, '&');
    DecHasNo(n, '|');
    DecHasNo(n, 'A');
    DecHasNo(n, 'd');
    PlainWordSum(x + Op(f), d);
    AttachedOperator(x, f, d);
  }

  lemma PlainWordSum(a: string, b: string)
    requires Plain(a) && Plain(b) && NoSpaces(a) && NoSpaces(b)
    ensures Plain(a + b) && NoSpaces(a + b)
  {
    NoSpacesSum(a, b);
  }

  lemma AttachedOperator(x: string, f: Field, d: string)
    ensures HasOperator(x + Op(f) + d)
  {
    var w := x + Op(f) + d;
    assert w[|x|..|x| + |Op(f)|] == Op(f);
    assert f.Latency? ==> w[|x|] == '>';
    assert OperatorAt(w, |x|);
  }

  lemma PrefixedTerms(u: string, f: Field, n: nat)
    requires '=' !in u && '>' !in u && 's' !in u && n <= ALL_ONES
    ensures Terms([u + Key(f) + Op(f) + Dec(n)], 0, 0) == if f.Status? then (n, 0) else (0, n)
  {
    var x, w := u + Key(f), u + Key(f) + Op(f) + Dec(n);
    StoullOfDec(n);
    SpacedTerm(x, 0, Op(f), 0, Dec(n), [], 0);
    assert [w][1..] + [] == [w][1..];
    PrefixedNames(u, f, n);
    TermsUnfold(f, [w], 0, 0);
  }

  lemma PrefixedNames(u: string, f: Field, n: nat)
    requires 's' !in u
    ensures var w := u + Key(f) + Op(f) + Dec(n);
            (Contains(w, "status") <==> f.Status?) && (f.Latency? ==> Contains(w, "latency"))
  {
    var w, tail := u + Key(f) + Op(f) + Dec(n), Op(f) + Dec(n);
    Reassociate(u + Key(f), Op(f), Dec(n));
    Reassociate(u, Key(f), tail);
    ContainsWithin(u, Key(f), tail);
    if f.Latency? {
      DecHasNo(n, 's');
      assert 's' !in w;
      NotFound(w, "status", 's');
    }
  }

  /** A number beyond 64 bits is not read. */
  lemma TooLargeIsSkipped(f: Field, i: nat, j: nat, n: nat)
    requires n > ALL_ONES
    ensures Parsed(Spelled(f, i, j, n)) == Numerical(0, 0)
  {
    if WellSpaced(i, j) {
      ParsedAlone(f, i, j, n);
      TooLargeTerms(f, i, j, n);
    } else {
      BadlySpaced(f, i, j, n);
    }
  }

  lemma TooLargeTerms(f: Field, i: nat, j: nat, n: nat)
    requires n > ALL_ONES && WellSpaced(i, j)
    ensures Terms(SpelledWords(f, i, j, n), 0, 0) == (0, 0)
  {
    TooLargeNumber(n);
    SpelledTermsAny(f, i, j, n, [], 0, 0);
    assert SpelledWords(f, i, j, n) + [] == SpelledWords(f, i, j, n);
  }

  lemma TooLargeNumber(n: nat)
    requires n > ALL_ONES
    ensures Stoull(Dec(n)) == None
  {
    StoullReads("", n, "");
    assert "" + Dec(n) + "" == Dec(n);
  }
}
