/** What the plan cache holds after any sequence of operations. */
module PlanCacheRuns {
  import opened Bits
  import opened PlanCache

  datatype Op = Lookup(key: u64) | Insert(key: u64, plan: nat)

  function Apply(capacity: nat, es: seq<Entry>, op: Op): seq<Entry> {
    match op
    case Lookup(key) => AfterLookup(es, key)
    case Insert(key, plan) => AfterInsert(es, capacity, key, plan)
  }

  function ApplyAll(capacity: nat, ops: seq<Op>): seq<Entry> {
    if ops == [] then [] else Apply(capacity, ApplyAll(capacity, ops[..|ops| - 1]), ops[|ops| - 1])
  }

  /** The entries after `ops`, starting empty. */
  function Run(capacity: nat, ops: seq<Op>): seq<Entry> { ApplyAll(capacity, ops) }

  /** The keys used, in order: every insert, and every lookup that hits. */
  function Uses(capacity: nat, ops: seq<Op>): seq<u64> {
    if ops == [] then []
    else
      var before, op := Run(capacity, ops[..|ops| - 1]), ops[|ops| - 1];
      Uses(capacity, ops[..|ops| - 1]) + if op.Lookup? && Find(before, op.key).None? then [] else [op.key]
  }

  /** The distinct keys of a use history, most recent first. */
  function Recency(uses: seq<u64>): seq<u64> {
    if uses == [] then [] else [uses[|uses| - 1]] + Remove(Recency(uses[..|uses| - 1]), uses[|uses| - 1])
  }

  /** One past the position of the last use of `key`; zero if it was never used. */
  function LastUse(uses: seq<u64>, key: u64): nat {
    if uses == [] then 0 else if uses[|uses| - 1] == key then |uses| else LastUse(uses[..|uses| - 1], key)
  }

  /** Listed strictly by how recently each was last used. */
  ghost predicate Ordered(uses: seq<u64>, s: seq<u64>) {
    forall i, j | 0 <= i < j < |s| :: LastUse(uses, s[i]) > LastUse(uses, s[j])
  }

  lemma {:induction false} RemoveKeepsOrder(uses: seq<u64>, s: seq<u64>, x: u64)
    requires Ordered(uses, s)
    ensures Ordered(uses, Remove(s, x))
  {
    if s != [] {
      var tail := s[1..];
      assert forall j | 0 <= j < |tail| :: tail[j] == s[j + 1];
      RemoveKeepsOrder(uses, tail, x);
      if s[0] != x {
        var r := Remove(tail, x);
        forall j | 0 <= j < |r| ensures LastUse(uses, s[0]) > LastUse(uses, r[j]) {
          RemoveMember(tail, x, r[j]);
          var k :| 0 <= k < |tail| && tail[k] == r[j];
        }
        OrderedCons(uses, s[0], r);
      }
    }
  }

  lemma OrderedCons(uses: seq<u64>, x: u64, r: seq<u64>)
    requires Ordered(uses, r)
    requires forall j | 0 <= j < |r| :: LastUse(uses, x) > LastUse(uses, r[j])
    ensures Ordered(uses, [x] + r)
  {
    var s := [x] + r;
    assert forall j | 1 <= j < |s| :: s[j] == r[j - 1];
  }

  lemma {:induction false} LastUseBound(uses: seq<u64>, key: u64)
    ensures LastUse(uses, key) <= |uses|
  {
    if uses != [] { LastUseBound(uses[..|uses| - 1], key); }
  }

  /** `Recency` is strictly by last use. */
  lemma {:induction false} RecencyIsByLastUse(uses: seq<u64>)
    ensures Ordered(uses, Recency(uses))
  {
    if uses != [] {
      var n := |uses| - 1;
      var init, x := uses[..n], uses[n];
      RecencyIsByLastUse(init);
      var r := Remove(Recency(init), x);
      RemoveKeepsOrder(init, Recency(init), x);
      forall j | 0 <= j < |r| ensures LastUse(uses, r[j]) == LastUse(init, r[j]) < |uses| {
        RemoveMember(Recency(init), x, r[j]);
        LastUseBound(init, r[j]);
      }
      assert LastUse(uses, x) == |uses|;
      assert Ordered(uses, r);
      OrderedCons(uses, x, r);
    }
  }

  lemma {:induction false} RecencyMembers(uses: seq<u64>, key: u64)
    ensures key in Recency(uses) <==> key in uses
  {
    if uses != [] {
      var n := |uses| - 1;
      RecencyMembers(uses[..n], key);
      RemoveMember(Recency(uses[..n]), uses[n], key);
      assert uses == uses[..n] + [uses[n]];
    }
  }

  lemma RecencyDistinct(uses: seq<u64>)
    ensures Distinct(Recency(uses))
  {
    RecencyIsByLastUse(uses);
  }

  function Take(s: seq<u64>, n: nat): seq<u64> { if |s| <= n then s else s[..n] }

  lemma {:induction false} RemoveConcat(a: seq<u64>, b: seq<u64>, x: u64)
    ensures Remove(a + b, x) == Remove(a, x) + Remove(b, x)
  {
    if a == [] {
      assert a + b == b;
    } else {
      assert (a + b)[1..] == a[1..] + b;
      RemoveConcat(a[1..], b, x);
    }
  }

  /** Using a key that is among the first `n` leaves the same keys, reordered. */
  lemma TakeRemoveHit(s: seq<u64>, n: nat, x: u64)
    requires Distinct(s) && n >= 1 && x in Take(s, n)
    ensures Take(Remove(s, x), n - 1) == Remove(Take(s, n), x)
  {
    if |s| <= n {
      RemoveDistinct(s, x);
    } else {
      var a, b := s[..n], s[n..];
      assert s == a + b;
      RemoveConcat(a, b, x);
      RemoveDistinct(a, x);
      assert Take(Remove(s, x), n - 1) == Remove(a, x);
    }
  }

  /** Using a key that is not pushes the last one out when there is no room. */
  lemma TakeRemoveMiss(s: seq<u64>, n: nat, x: u64)
    requires n >= 1 && x !in Take(s, n)
    ensures Take(Remove(s, x), n - 1) ==
            if |Take(s, n)| >= n then Take(s, n)[..|Take(s, n)| - 1] else Take(s, n)
  {
    if |s| <= n {
      RemoveAbsent(s, x);
    } else {
      var a, b := s[..n], s[n..];
      assert s == a + b;
      RemoveConcat(a, b, x);
      RemoveAbsent(a, x);
    }
  }

  lemma {:induction false} FindMember(es: seq<Entry>, key: u64)
    ensures Find(es, key).Some? <==> key in Keys(es)
    ensures Find(es, key).Some? ==> Find(es, key).value in es && Find(es, key).value.key == key
  {
    if es != [] {
      var e, tail := es[0], es[1..];
      assert es == [e] + tail;
      KeysCons(e, tail);
      if e.key != key { FindMember(tail, key); }
    }
  }

  lemma FindKey(es: seq<Entry>, key: u64)
    ensures Find(es, key).Some? <==> key in Keys(es)
    ensures Find(es, key).Some? ==> Find(es, key).value in es && Find(es, key).value.key == key
    ensures Keys(Drop(es, key)) == Remove(Keys(es), key)
  {
    FindMember(es, key);
    DropKeys(es, key);
  }

  lemma {:induction false} DropKeys(es: seq<Entry>, key: u64)
    ensures Keys(Drop(es, key)) == Remove(Keys(es), key)
  {
    if es != [] {
      DropKeys(es[1..], key);
      assert Keys(es)[1..] == Keys(es[1..]);
      KeysCons(es[0], Drop(es[1..], key));
    }
  }

  /** What an operation does to the keys. */
  lemma KeysAfter(capacity: nat, es: seq<Entry>, op: Op)
    requires capacity >= 1
    ensures var ks, ks' := Keys(es), Keys(Apply(capacity, es, op));
            if op.key in ks then ks' == [op.key] + Remove(ks, op.key)
            else if op.Lookup? then ks' == ks
            else ks' == [op.key] + if |ks| >= capacity then ks[..|ks| - 1] else ks
  {
    FindKey(es, op.key);
    var found := Find(es, op.key);
    if found.Some? {
      KeysCons(if op.Lookup? then Hit(found.value) else found.value.(plan := op.plan), Drop(es, op.key));
    } else if op.Insert? {
      var kept := if |es| >= capacity && es != [] then es[..|es| - 1] else es;
      KeysCons(Entry(op.key, op.plan, 1), kept);
      assert Keys(kept) == if |es| >= capacity then Keys(es)[..|es| - 1] else Keys(es);
    }
  }

  lemma KeysCons(e: Entry, es: seq<Entry>)
    ensures Keys([e] + es) == [e.key] + Keys(es)
  {
  }

  lemma TakeUse(s: seq<u64>, capacity: nat, key: u64)
    requires capacity >= 1 && Distinct(s)
    ensures var ks := Take(s, capacity);
            Take([key] + Remove(s, key), capacity) ==
            [key] + if key in ks then Remove(ks, key) else if |ks| >= capacity then ks[..|ks| - 1] else ks
  {
    assert Take([key] + Remove(s, key), capacity) == [key] + Take(Remove(s, key), capacity - 1);
    if key in Take(s, capacity) {
      TakeRemoveHit(s, capacity, key);
    } else {
      TakeRemoveMiss(s, capacity, key);
    }
  }

  /** After any operations the cache holds exactly the `capacity` most recently used distinct
      keys, in recency order. */
  lemma {:induction false} HoldsMostRecent(capacity: nat, ops: seq<Op>)
    requires capacity >= 1
    ensures Keys(Run(capacity, ops)) == Take(Recency(Uses(capacity, ops)), capacity)
  {
    if ops != [] {
      var n := |ops| - 1;
      var init, op := ops[..n], ops[n];
      HoldsMostRecent(capacity, init);
      var es, uses := Run(capacity, init), Uses(capacity, init);
      assert Run(capacity, ops) == Apply(capacity, es, op);
      KeysAfter(capacity, es, op);
      FindKey(es, op.key);
      if op.Lookup? && op.key !in Keys(es) {
        assert Uses(capacity, ops) == uses;
      } else {
        RecencyDistinct(uses);
        TakeUse(Recency(uses), capacity, op.key);
        assert Uses(capacity, ops) == uses + [op.key];
        assert (uses + [op.key])[..|uses|] == uses;
      }
    }
  }

  /** The plan most recently inserted under `key`. */
  function LastPlan(ops: seq<Op>, key: u64): Option<nat> {
    if ops == [] then None
    else
      var op := ops[|ops| - 1];
      if op.Insert? && op.key == key then Some(op.plan) else LastPlan(ops[..|ops| - 1], key)
  }

  lemma {:induction false} DropMember(es: seq<Entry>, key: u64, e: Entry)
    requires e in Drop(es, key)
    ensures e in es && e.key != key
  {
    if es[0].key == key || e != es[0] { DropMember(es[1..], key, e); }
  }

  /** Every cached plan is the last one inserted for its key, however often it was moved or evicted since. */
  lemma {:induction false} PlansAreCurrent(capacity: nat, ops: seq<Op>, e: Entry)
    requires e in Run(capacity, ops)
    ensures LastPlan(ops, e.key) == Some(e.plan)
  {
    var n := |ops| - 1;
    var init, op := ops[..n], ops[n];
    var es := Run(capacity, init);
    FindKey(es, op.key);
    var found := Find(es, op.key);
    if e in es {
      PlansAreCurrent(capacity, init, e);
      if op.Insert? && op.key == e.key { InsertReplaces(es, capacity, op.key, op.plan, e); }
    } else if e in Drop(es, op.key) {
      DropMember(es, op.key, e);
    } else if found.Some? {
      PlansAreCurrent(capacity, init, found.value);
    }
  }

  /** An entry that survives the insertion of its own key carries the inserted plan. */
  lemma InsertReplaces(es: seq<Entry>, capacity: nat, key: u64, plan: nat, e: Entry)
    requires e in AfterInsert(es, capacity, key, plan) && e.key == key
    ensures e.plan == plan
  {
    FindKey(es, key);
    if Find(es, key).Some? {
      if e in Drop(es, key) { DropMember(es, key, e); }
    } else {
      assert e in es ==> key in Keys(es);
    }
  }

  function CountHits(capacity: nat, ops: seq<Op>, key: u64): nat {
    if ops == [] then 0
    else
      var init, op := ops[..|ops| - 1], ops[|ops| - 1];
      if op.key != key then CountHits(capacity, init, key)
      else if op.Lookup? then CountHits(capacity, init, key) + 1
      else if key in Take(Recency(Uses(capacity, init)), capacity) then CountHits(capacity, init, key)
      else 1
  }

  /** Uses counted for `key` since it last entered the cache: one for entering, one for each lookup. */
  function HitsOf(capacity: nat, ops: seq<Op>, key: u64): nat { CountHits(capacity, ops, key) }

  predicate Counted(e: Entry, n: nat) { e.hits == n % 0x1_0000_0000 }

  lemma RunSnoc(capacity: nat, init: seq<Op>, op: Op)
    ensures Run(capacity, init + [op]) == Apply(capacity, Run(capacity, init), op)
  {
    assert (init + [op])[..|init|] == init;
  }

  /** Every cached counter is that number, modulo 2^32. */
  lemma {:induction false} HitsAreCounted(capacity: nat, ops: seq<Op>, e: Entry)
    requires capacity >= 1 && e in Run(capacity, ops)
    ensures Counted(e, HitsOf(capacity, ops, e.key))
  {
    var n := |ops| - 1;
    var init, op := ops[..n], ops[n];
    assert ops == init + [op];
    RunSnoc(capacity, init, op);
    var es := Run(capacity, init);
    var found := Find(es, op.key);
    if e.key != op.key {
      OtherEntryStays(capacity, es, op, e);
      OtherHits(capacity, init, op, e.key);
      HitsAreCounted(capacity, init, e);
    } else {
      if found.Some? {
        FindMember(es, op.key);
        HitsAreCounted(capacity, init, found.value);
      }
      OwnCounted(capacity, init, op, e);
    }
  }

  lemma OwnCounted(capacity: nat, init: seq<Op>, op: Op, e: Entry)
    requires capacity >= 1 && e in Apply(capacity, Run(capacity, init), op) && e.key == op.key
    requires var found := Find(Run(capacity, init), op.key);
             found.Some? ==> Counted(found.value, HitsOf(capacity, init, op.key))
    ensures Counted(e, HitsOf(capacity, init + [op], op.key))
  {
    OwnHits(capacity, init, op);
    OwnEntryIs(capacity, Run(capacity, init), op, e);
    CounterSteps(HitsOf(capacity, init, op.key));
  }

  lemma OtherHits(capacity: nat, init: seq<Op>, op: Op, key: u64)
    requires key != op.key
    ensures HitsOf(capacity, init + [op], key) == HitsOf(capacity, init, key)
  {
    assert (init + [op])[..|init|] == init;
  }

  /** How an operation changes the count of its own key. */
  lemma OwnHits(capacity: nat, init: seq<Op>, op: Op)
    requires capacity >= 1
    ensures var before, found := HitsOf(capacity, init, op.key), Find(Run(capacity, init), op.key);
            HitsOf(capacity, init + [op], op.key) ==
            if op.Lookup? then before + 1 else if found.Some? then before else 1
  {
    assert (init + [op])[..|init|] == init;
    LookupReturnsLastInserted(capacity, init, op.key);
  }

  lemma CounterSteps(n: nat)
    ensures (n % 0x1_0000_0000 + 1) % 0x1_0000_0000 == (n + 1) % 0x1_0000_0000
  {
  }

  /** An operation on another key leaves an entry as it was. */
  lemma OtherEntryStays(capacity: nat, es: seq<Entry>, op: Op, e: Entry)
    requires e in Apply(capacity, es, op) && e.key != op.key
    ensures e in es
  {
    FindKey(es, op.key);
    if e in Drop(es, op.key) { DropMember(es, op.key, e); }
  }

  /** The entry of the operation's own key, after it. */
  lemma OwnEntryIs(capacity: nat, es: seq<Entry>, op: Op, e: Entry)
    requires e in Apply(capacity, es, op) && e.key == op.key
    ensures match Find(es, op.key)
            case Some(old_) => e.hits == (if op.Lookup? then (old_.hits + 1) % 0x1_0000_0000 else old_.hits)
            case None => op.Insert? && e.hits == 1
  {
    FindKey(es, op.key);
    if e in Drop(es, op.key) { DropMember(es, op.key, e); }
    if e in es { assert op.key in Keys(es); }
  }

  /** A lookup hits exactly when its key is among the `capacity` most recent, and then
      returns the plan last inserted for it. */
  lemma LookupReturnsLastInserted(capacity: nat, ops: seq<Op>, key: u64)
    requires capacity >= 1
    ensures Find(Run(capacity, ops), key).Some? <==> key in Take(Recency(Uses(capacity, ops)), capacity)
    ensures Find(Run(capacity, ops), key).Some? ==>
              LastPlan(ops, key) == Some(Find(Run(capacity, ops), key).value.plan)
  {
    HoldsMostRecent(capacity, ops);
    FindKey(Run(capacity, ops), key);
    if Find(Run(capacity, ops), key).Some? {
      PlansAreCurrent(capacity, ops, Find(Run(capacity, ops), key).value);
    }
  }
}
