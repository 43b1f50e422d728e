/** The scalar text search: how often a pattern occurs without overlap. */
module SubstringSearch {
  /** How many characters of the pattern the comparison reads: it stops after a NUL. */
  function Compared(pattern: string): (n: nat)
    ensures n <= |pattern| && (pattern != "" ==> n > 0)
    ensures forall k | 0 <= k < n - 1 :: pattern[k] != '\0'
    ensures n < |pattern| ==> n > 0 && pattern[n - 1] == '\0'
  {
    if pattern == "" then 0
    else if pattern[0] == '\0' then 1
    else 1 + Compared(pattern[1..])
  }

  /** The pattern's first `n` characters stand at `p`, with room for the whole pattern. */
  predicate MatchAt(text: string, pattern: string, n: nat, p: nat)
    requires n <= |pattern|
  {
    p + |pattern| <= |text| && text[p..p + n] == pattern[..n]
  }

  /** Matches at ascending positions that do not overlap. */
  ghost predicate Packing(text: string, pattern: string, n: nat, ps: seq<nat>)
    requires n <= |pattern|
  {
    && (forall i | 0 <= i < |ps| :: MatchAt(text, pattern, n, ps[i]))
    && (forall i, j | 0 <= i < j < |ps| :: ps[i] + |pattern| <= ps[j])
  }

  /** `count` is the largest number of non-overlapping matches. */
  ghost predicate IsMaximum(text: string, pattern: string, n: nat, count: nat)
    requires n <= |pattern|
  {
    && (exists ps :: Packing(text, pattern, n, ps) && |ps| == count)
    && (forall ps :: Packing(text, pattern, n, ps) ==> |ps| <= count)
  }

  /** No packing that starts before `p` throughout has more than `count` matches. */
  ghost predicate BoundBefore(text: string, pattern: string, n: nat, p: nat, count: nat)
    requires n <= |pattern|
  {
    forall ps :: Packing(text, pattern, n, ps) && (ps == [] || ps[|ps| - 1] < p) ==> |ps| <= count
  }

  ghost predicate NoMatchIn(text: string, pattern: string, n: nat, lo: nat, hi: nat)
    requires n <= |pattern|
  {
    forall q | lo <= q < hi :: !MatchAt(text, pattern, n, q)
  }

  lemma PackingInit(text: string, pattern: string, n: nat, ps: seq<nat>)
    requires n <= |pattern| && Packing(text, pattern, n, ps) && ps != []
    ensures Packing(text, pattern, n, ps[..|ps| - 1])
  {
  }

  /** Skipping positions without a match keeps the bound. */
  lemma SkipKeepsBound(text: string, pattern: string, n: nat, p: nat, q: nat, count: nat)
    requires n <= |pattern| && p <= q
    requires BoundBefore(text, pattern, n, p, count) && NoMatchIn(text, pattern, n, p, q)
    ensures BoundBefore(text, pattern, n, q, count)
  {
    forall ps | Packing(text, pattern, n, ps) && (ps == [] || ps[|ps| - 1] < q) ensures |ps| <= count {
      if ps != [] { assert MatchAt(text, pattern, n, ps[|ps| - 1]); }
    }
  }

  /** Taking the earliest match is never worse: the bound grows by exactly one. */
  lemma TakeKeepsBound(text: string, pattern: string, n: nat, p: nat, count: nat)
    requires n <= |pattern| && pattern != "" && BoundBefore(text, pattern, n, p, count)
    ensures BoundBefore(text, pattern, n, p + |pattern|, count + 1)
  {
    forall ps | Packing(text, pattern, n, ps) && (ps == [] || ps[|ps| - 1] < p + |pattern|) ensures |ps| <= count + 1 {
      if ps != [] {
        var init := ps[..|ps| - 1];
        PackingInit(text, pattern, n, ps);
        assert init != [] ==> init[|init| - 1] + |pattern| <= ps[|ps| - 1];
        assert |init| <= count;
      }
    }
  }

  /** The first position at or after `p` holding `c`, or the end of the text. */
  method FindChar(text: string, c: char, p: nat) returns (q: nat)
    requires p <= |text|
    ensures p <= q <= |text|
    ensures q < |text| ==> text[q] == c
    ensures forall i | p <= i < q :: text[i] != c
  {
    q := p;
    while q < |text| && text[q] != c
      invariant p <= q <= |text|
      invariant forall i | p <= i < q :: text[i] != c
    {
      q := q + 1;
    }
  }

  /** Where the pattern's first character is absent there is no match. */
  lemma NoFirstChar(text: string, pattern: string, n: nat, lo: nat, hi: nat)
    requires 0 < n <= |pattern| && hi <= |text|
    requires forall i | lo <= i < hi :: text[i] != pattern[0]
    ensures NoMatchIn(text, pattern, n, lo, hi)
  {
    forall q | lo <= q < hi ensures !MatchAt(text, pattern, n, q) {
      if q + |pattern| <= |text| {
        assert text[q..q + n][0] == text[q] && pattern[..n][0] == pattern[0];
      }
    }
  }

  lemma PackingExtend(text: string, pattern: string, n: nat, ps: seq<nat>, q: nat)
    requires n <= |pattern| && Packing(text, pattern, n, ps) && MatchAt(text, pattern, n, q)
    requires ps != [] ==> ps[|ps| - 1] + |pattern| <= q
    ensures Packing(text, pattern, n, ps + [q])
  {
    assert forall i | 0 <= i < |ps| - 1 :: ps[i] + |pattern| <= ps[|ps| - 1];
  }

  /** The matches taken so far: a packing that ends by `p` and that no packing before `p` beats. */
  ghost predicate Greedy(text: string, pattern: string, n: nat, p: nat, taken: seq<nat>)
    requires n <= |pattern|
  {
    && Packing(text, pattern, n, taken)
    && (taken != [] ==> taken[|taken| - 1] + |pattern| <= p)
    && BoundBefore(text, pattern, n, p, |taken|)
  }

  lemma GreedySkip(text: string, pattern: string, n: nat, p: nat, q: nat, taken: seq<nat>)
    requires n <= |pattern| && p <= q && Greedy(text, pattern, n, p, taken) && NoMatchIn(text, pattern, n, p, q)
    ensures Greedy(text, pattern, n, q, taken)
  {
    SkipKeepsBound(text, pattern, n, p, q, |taken|);
  }

  lemma GreedyMiss(text: string, pattern: string, n: nat, q: nat, taken: seq<nat>)
    requires n <= |pattern| && Greedy(text, pattern, n, q, taken) && !MatchAt(text, pattern, n, q)
    ensures Greedy(text, pattern, n, q + 1, taken)
  {
    GreedySkip(text, pattern, n, q, q + 1, taken);
  }

  lemma GreedyTake(text: string, pattern: string, n: nat, q: nat, taken: seq<nat>)
    requires n <= |pattern| && pattern != "" && Greedy(text, pattern, n, q, taken) && MatchAt(text, pattern, n, q)
    ensures Greedy(text, pattern, n, q + |pattern|, taken + [q])
  {
    PackingExtend(text, pattern, n, taken, q);
    TakeKeepsBound(text, pattern, n, q, |taken|);
  }

  /** Once no match fits at or after `p`, the greedy packing is a largest one. */
  lemma Conclude(text: string, pattern: string, n: nat, p: nat, taken: seq<nat>)
    requires n <= |pattern| && p + |pattern| > |text| && Greedy(text, pattern, n, p, taken)
    ensures IsMaximum(text, pattern, n, |taken|)
  {
    forall ps | Packing(text, pattern, n, ps) ensures |ps| <= |taken| {
      if ps != [] { assert MatchAt(text, pattern, n, ps[|ps| - 1]); }
    }
  }

  /** The counting loop: jump to the next first character, compare, and step past a match. */
  method CountOccurrences(text: string, pattern: string) returns (occurrences: nat)
    ensures pattern == "" ==> occurrences == 0
    ensures pattern != "" ==> IsMaximum(text, pattern, Compared(pattern), occurrences)
  {
    occurrences := 0;
    if pattern == "" {
      return;
    }
    var n := Compared(pattern);
    ghost var taken: seq<nat> := [];
    var p := 0;
    while p + |pattern| <= |text|
      invariant p <= |text| && |taken| == occurrences
      invariant Greedy(text, pattern, n, p, taken)
      decreases |text| - p
    {
      var candidate := FindChar(text, pattern[0], p);
      NoFirstChar(text, pattern, n, p, candidate);
      GreedySkip(text, pattern, n, p, candidate, taken);
      if candidate == |text| || candidate + |pattern| > |text| {
        p := candidate;
        break;
      }
      if text[candidate..candidate + n] == pattern[..n] {
        GreedyTake(text, pattern, n, candidate, taken);
        taken := taken + [candidate];
        occurrences := occurrences + 1;
        p := candidate + |pattern|;
      } else {
        GreedyMiss(text, pattern, n, candidate, taken);
        p := candidate + 1;
      }
    }
    Conclude(text, pattern, n, p, taken);
  }

  lemma MaximumUnique(text: string, pattern: string, n: nat, a: nat, b: nat)
    requires n <= |pattern| && IsMaximum(text, pattern, n, a) && IsMaximum(text, pattern, n, b)
    ensures a == b
  {
    var ps :| Packing(text, pattern, n, ps) && |ps| == a;
    var qs :| Packing(text, pattern, n, qs) && |qs| == b;
  }

  /** One match needs a match position within the first gap, two need room for two patterns. */
  lemma PackingRoom(text: string, pattern: string, n: nat, qs: seq<nat>)
    requires n <= |pattern| && Packing(text, pattern, n, qs)
    ensures |qs| >= 1 ==> MatchAt(text, pattern, n, qs[0])
    ensures |qs| >= 2 ==> 2 * |pattern| <= |text|
  {
    if |qs| >= 2 {
      assert MatchAt(text, pattern, n, qs[1]);
      assert qs[0] + |pattern| <= qs[1];
    }
  }

  /** A text of the pattern's own length has one place to match. */
  lemma SingleWindow(text: string, pattern: string, n: nat)
    requires pattern != "" && n <= |pattern| == |text|
    ensures IsMaximum(text, pattern, n, if text[..n] == pattern[..n] then 1 else 0)
  {
    var count := if text[..n] == pattern[..n] then 1 else 0;
    assert MatchAt(text, pattern, n, 0) <==> count == 1;
    var ps: seq<nat> := if count == 1 then [0] else [];
    assert Packing(text, pattern, n, ps) && |ps| == count;
    forall qs | Packing(text, pattern, n, qs) ensures |qs| <= count { PackingRoom(text, pattern, n, qs); }
  }

  /** The search counts true occurrences, on every text, exactly for the patterns in which
      no character follows a NUL. */
  lemma ExactIff(pattern: string)
    requires pattern != ""
    ensures (forall text, count :: IsMaximum(text, pattern, Compared(pattern), count) ==>
                                   IsMaximum(text, pattern, |pattern|, count))
            <==> forall k | 0 <= k < |pattern| - 1 :: pattern[k] != '\0'
  {
    var n := Compared(pattern);
    if n < |pattern| {
      assert pattern[n - 1] == '\0';
      var other := if pattern[n] == 'x' then 'y' else 'x';
      var text := pattern[n := other];
      assert text[..n] == pattern[..n];
      assert text[..|pattern|][n] != pattern[..|pattern|][n];
      SingleWindow(text, pattern, n);
      SingleWindow(text, pattern, |pattern|);
      assert IsMaximum(text, pattern, n, 1) && IsMaximum(text, pattern, |pattern|, 0);
      if IsMaximum(text, pattern, |pattern|, 1) { MaximumUnique(text, pattern, |pattern|, 0, 1); }
    }
  }
}
