/** The LRU cache of compiled plans: a linked list in recency order and a hash
    map from keys to list nodes, kept in step. */
module PlanCache {
  import opened Bits

  /** `plan` stands for the compiled function; the cache only stores and returns it. */
  datatype Entry = Entry(key: u64, plan: nat, hits: nat)

  /** Hit counters are 32-bit and wrap. */
  function Hit(e: Entry): Entry { e.(hits := (e.hits + 1) % 0x1_0000_0000) }

  function Remove<T(==)>(s: seq<T>, x: T): seq<T> {
    if s == [] then [] else if s[0] == x then Remove(s[1..], x) else [s[0]] + Remove(s[1..], x)
  }

  ghost predicate Distinct<T>(s: seq<T>) {
    forall i, j | 0 <= i < j < |s| :: s[i] != s[j]
  }

  lemma {:induction false} RemoveMember<T>(s: seq<T>, x: T, y: T)
    ensures y in Remove(s, x) <==> y in s && y != x
  {
    if s != [] {
      assert s == [s[0]] + s[1..];
      RemoveMember(s[1..], x, y);
    }
  }

  lemma {:induction false} RemoveAbsent<T>(s: seq<T>, x: T)
    requires x !in s
    ensures Remove(s, x) == s
  {
    if s != [] { RemoveAbsent(s[1..], x); }
  }

  lemma {:induction false} RemoveDistinct<T>(s: seq<T>, x: T)
    requires Distinct(s) && x in s
    ensures Distinct([x] + Remove(s, x)) && |Remove(s, x)| == |s| - 1
  {
    var tail := s[1..];
    assert forall j | 1 <= j < |s| :: s[j] == tail[j - 1];
    if s[0] == x {
      RemoveAbsent(tail, x);
    } else {
      RemoveDistinct(tail, x);
      RemoveMember(tail, x, s[0]);
      var rest := Remove(tail, x);
      assert Distinct(rest) by {
        assert forall j | 0 <= j < |rest| :: ([x] + rest)[j + 1] == rest[j];
      }
      assert Remove(s, x) == [s[0]] + rest;
      RemoveMember(s, x, x);
    }
  }

  function Keys(es: seq<Entry>): (ks: seq<u64>)
    ensures |ks| == |es|
    ensures forall i | 0 <= i < |es| :: ks[i] == es[i].key
  {
    seq(|es|, i requires 0 <= i < |es| => es[i].key)
  }

  function FindFrom(es: seq<Entry>, key: u64): Option<Entry> {
    if es == [] then None else if es[0].key == key then Some(es[0]) else FindFrom(es[1..], key)
  }

  /** The first entry for `key`, if any. */
  function Find(es: seq<Entry>, key: u64): Option<Entry> { FindFrom(es, key) }

  function DropFrom(es: seq<Entry>, key: u64): seq<Entry> {
    if es == [] then [] else if es[0].key == key then DropFrom(es[1..], key) else [es[0]] + DropFrom(es[1..], key)
  }

  /** The entries with other keys. */
  function Drop(es: seq<Entry>, key: u64): seq<Entry> { DropFrom(es, key) }

  /** A hit moves the entry to the front; a miss changes nothing. */
  function AfterLookup(es: seq<Entry>, key: u64): seq<Entry> {
    var e := Find(es, key);
    if e.None? then es else [Hit(e.value)] + Drop(es, key)
  }

  /** A known key is given the new plan and moved to the front; a new one goes to the
      front, evicting the last entry when the cache is full. */
  function AfterInsert(es: seq<Entry>, capacity: nat, key: u64, plan: nat): seq<Entry> {
    var e := Find(es, key);
    if e.Some? then [e.value.(plan := plan)] + Drop(es, key)
    else [Entry(key, plan, 1)] + if |es| >= capacity && es != [] then es[..|es| - 1] else es
  }

  ghost predicate InArena(list: seq<nat>, nodes: seq<Entry>) {
    forall i | 0 <= i < |list| :: list[i] < |nodes|
  }

  /** The entries that a list of nodes denotes. */
  function Image(list: seq<nat>, nodes: seq<Entry>): (es: seq<Entry>)
    requires InArena(list, nodes)
    ensures |es| == |list| && forall i | 0 <= i < |list| :: es[i] == nodes[list[i]]
  {
    seq(|list|, i requires 0 <= i < |list| => nodes[list[i]])
  }

  /** `node` is the only listed node with the given key. */
  ghost predicate Only(list: seq<nat>, nodes: seq<Entry>, node: nat, key: u64)
    requires InArena(list, nodes)
  {
    forall i | 0 <= i < |list| :: nodes[list[i]].key == key <==> list[i] == node
  }

  lemma {:induction false} FindImage(list: seq<nat>, nodes: seq<Entry>, node: nat, key: u64)
    requires InArena(list, nodes) && Only(list, nodes, node, key)
    ensures node in list ==> Find(Image(list, nodes), key) == Some(nodes[node])
    ensures node !in list ==> Find(Image(list, nodes), key) == None
  {
    if list != [] {
      var tail := list[1..];
      assert forall i | 0 <= i < |tail| :: tail[i] == list[i + 1];
      FindImage(tail, nodes, node, key);
      assert Image(list, nodes)[1..] == Image(tail, nodes);
    }
  }

  lemma {:induction false} DropImage(list: seq<nat>, nodes: seq<Entry>, node: nat, key: u64)
    requires InArena(list, nodes) && Only(list, nodes, node, key)
    ensures InArena(Remove(list, node), nodes)
    ensures Drop(Image(list, nodes), key) == Image(Remove(list, node), nodes)
  {
    if list != [] {
      var tail := list[1..];
      assert forall i | 0 <= i < |tail| :: tail[i] == list[i + 1];
      DropImage(tail, nodes, node, key);
      assert list == [list[0]] + tail;
      ImageCons(list[0], tail, nodes);
      DropCons(nodes[list[0]], Image(tail, nodes), key);
      if list[0] != node { ImageCons(list[0], Remove(tail, node), nodes); }
    }
  }

  lemma ImageCons(n: nat, list: seq<nat>, nodes: seq<Entry>)
    requires InArena(list, nodes) && n < |nodes|
    ensures InArena([n] + list, nodes) && Image([n] + list, nodes) == [nodes[n]] + Image(list, nodes)
  {
  }

  lemma DropCons(e: Entry, es: seq<Entry>, key: u64)
    ensures Drop([e] + es, key) == if e.key == key then Drop(es, key) else [e] + Drop(es, key)
  {
    assert ([e] + es)[1..] == es;
  }

  /** List and map are in bijection: each listed node is where the map sends its key, and the map
      has no other entries. */
  ghost predicate Bijection(list: seq<nat>, nodes: seq<Entry>, m: map<u64, nat>) {
    && InArena(list, nodes) && Distinct(list) && |m| == |list|
    && (forall i | 0 <= i < |list| :: nodes[list[i]].key in m && m[nodes[list[i]].key] == list[i])
    && (forall k | k in m :: m[k] in list && nodes[m[k]].key == k)
  }

  /** The list with `node` moved to the front. */
  function Splice(list: seq<nat>, node: nat): seq<nat> { [node] + Remove(list, node) }

  lemma SpliceMembers(list: seq<nat>, node: nat, n: nat)
    requires node in list && Distinct(list)
    ensures n in Splice(list, node) <==> n in list
    ensures Distinct(Splice(list, node)) && |Splice(list, node)| == |list|
  {
    RemoveMember(list, node, n);
    RemoveDistinct(list, node);
  }

  lemma SpliceImage(list: seq<nat>, nodes: seq<Entry>, node: nat, e: Entry)
    requires InArena(list, nodes) && Only(list, nodes, node, e.key) && node < |nodes|
    ensures InArena(Splice(list, node), nodes[node := e])
    ensures Image(Splice(list, node), nodes[node := e]) == [e] + Drop(Image(list, nodes), e.key)
  {
    DropImage(list, nodes, node, e.key);
    var rest := Remove(list, node);
    RemoveMember(list, node, node);
    assert forall i | 0 <= i < |rest| :: rest[i] != node;
    var moved := Splice(list, node);
    assert forall i | 1 <= i < |moved| :: moved[i] == rest[i - 1];
  }

  /** Rewriting a node in place and splicing it to the front. */
  lemma SpliceKeeps(list: seq<nat>, nodes: seq<Entry>, m: map<u64, nat>, key: u64, e: Entry)
    requires Bijection(list, nodes, m) && key in m && e.key == key
    ensures Bijection(Splice(list, m[key]), nodes[m[key] := e], m)
  {
    var node := m[key];
    var list', nodes' := Splice(list, node), nodes[node := e];
    SpliceMembers(list, node, node);
    forall i | 0 <= i < |list'|
      ensures list'[i] < |nodes'| && nodes'[list'[i]].key in m && m[nodes'[list'[i]].key] == list'[i]
    {
      SpliceMembers(list, node, list'[i]);
      var j :| 0 <= j < |list| && list[j] == list'[i];
    }
    forall k | k in m ensures m[k] in list' && nodes'[m[k]].key == k { SpliceMembers(list, node, m[k]); }
  }

  lemma EvictKeepsKey(list: seq<nat>, nodes: seq<Entry>, m: map<u64, nat>, k: u64)
    requires Bijection(list, nodes, m) && k in m && list != [] && k != nodes[list[|list| - 1]].key
    ensures m[k] in list[..|list| - 1]
  {
    var i :| 0 <= i < |list| && list[i] == m[k];
    assert list[..|list| - 1][i] == m[k];
  }

  lemma EvictDistinct(list: seq<nat>, nodes: seq<Entry>)
    requires InArena(list, nodes) && Distinct(list) && list != []
    ensures InArena(list[..|list| - 1], nodes) && Distinct(list[..|list| - 1])
  {
  }

  lemma EvictSize(m: map<u64, nat>, key: u64)
    requires key in m
    ensures |m - {key}| == |m| - 1
  {
    assert (m - {key}).Keys == m.Keys - {key};
  }

  lemma EvictKeepsNode(list: seq<nat>, nodes: seq<Entry>, m: map<u64, nat>, i: nat)
    requires Bijection(list, nodes, m) && i < |list| - 1
    ensures nodes[list[i]].key in m && m[nodes[list[i]].key] == list[i]
    ensures nodes[list[i]].key != nodes[list[|list| - 1]].key
  {
    assert list[i] != list[|list| - 1];
  }

  lemma EvictKeeps(list: seq<nat>, nodes: seq<Entry>, m: map<u64, nat>)
    requires Bijection(list, nodes, m) && list != []
    ensures Bijection(list[..|list| - 1], nodes, m - {nodes[list[|list| - 1]].key})
  {
    var n := |list| - 1;
    var key := nodes[list[n]].key;
    var list', m' := list[..n], m - {key};
    EvictSize(m, key);
    EvictDistinct(list, nodes);
    forall i | 0 <= i < n ensures nodes[list'[i]].key in m' && m'[nodes[list'[i]].key] == list'[i] {
      EvictKeepsNode(list, nodes, m, i);
    }
    forall k | k in m' ensures m'[k] in list' && nodes[m'[k]].key == k { EvictKeepsKey(list, nodes, m, k); }
  }

  lemma PushKeeps(list: seq<nat>, nodes: seq<Entry>, m: map<u64, nat>, e: Entry)
    requires Bijection(list, nodes, m) && e.key !in m
    ensures Bijection([|nodes|] + list, nodes + [e], m[e.key := |nodes|])
  {
    var list', nodes', m' := [|nodes|] + list, nodes + [e], m[e.key := |nodes|];
    forall i | 0 <= i < |list'|
      ensures list'[i] < |nodes'| && nodes'[list'[i]].key in m' && m'[nodes'[list'[i]].key] == list'[i]
    {
      if i > 0 { assert list'[i] == list[i - 1]; }
    }
    forall k | k in m' ensures m'[k] in list' && nodes'[m'[k]].key == k {
      if k != e.key { assert m[k] in list; }
    }
  }

  class PlanCache {
    const capacity: nat
    var lruList: seq<nat>
    var nodes: seq<Entry>       // list nodes, by identity; evicted ones are unreachable
    var cacheMap: map<u64, nat> // key to list node

    ghost predicate Valid()
      reads this
    {
      capacity >= 1 && |lruList| <= capacity && Bijection(lruList, nodes, cacheMap)
    }

    /** The cached entries, most recently used first. */
    ghost function Entries(): seq<Entry>
      requires Valid()
      reads this
    {
      Image(lruList, nodes)
    }

    constructor (maxPlans: nat)
      requires maxPlans >= 1
      ensures Valid() && capacity == maxPlans && Entries() == []
    {
      capacity := maxPlans;
      lruList, nodes, cacheMap := [], [], map[];
    }

    /** Whether the map knows a key is whether the list has it. */
    lemma FindIsMapLookup(key: u64)
      requires Valid()
      ensures Find(Entries(), key) == if key in cacheMap then Some(nodes[cacheMap[key]]) else None
    {
      FindImage(lruList, nodes, if key in cacheMap then cacheMap[key] else |nodes|, key);
    }

    /** Rewrites a cached entry and moves it to the front. */
    method Refresh(key: u64, e: Entry)
      requires Valid() && key in cacheMap && e.key == key
      modifies `lruList, `nodes
      ensures Valid() && Entries() == [e] + Drop(old(Entries()), key)
    {
      var node := cacheMap[key];
      SpliceKeeps(lruList, nodes, cacheMap, key, e);
      SpliceImage(lruList, nodes, node, e);
      SpliceMembers(lruList, node, node);
      nodes := nodes[node := e];
      lruList := Splice(lruList, node);
    }

    method EvictLast()
      requires Valid() && lruList != []
      modifies `lruList, `cacheMap
      ensures Valid() && |lruList| == old(|lruList|) - 1 && Entries() == old(Entries())[..|lruList|]
      ensures cacheMap.Keys <= old(cacheMap.Keys)
    {
      EvictKeeps(lruList, nodes, cacheMap);
      cacheMap := cacheMap - {nodes[lruList[|lruList| - 1]].key};
      lruList := lruList[..|lruList| - 1];
    }

    method PushFront(e: Entry)
      requires Valid() && e.key !in cacheMap && |lruList| < capacity
      modifies `lruList, `nodes, `cacheMap
      ensures Valid() && Entries() == [e] + old(Entries())
    {
      PushKeeps(lruList, nodes, cacheMap, e);
      lruList := [|nodes|] + lruList;
      cacheMap := cacheMap[e.key := |nodes|];
      nodes := nodes + [e];
    }

    method LookupPlan(key: u64) returns (found: bool, plan: nat)
      requires Valid()
      modifies `lruList, `nodes
      ensures Valid()
      ensures found <==> old(Find(Entries(), key)).Some?
      ensures found ==> plan == old(Find(Entries(), key)).value.plan
      ensures Entries() == AfterLookup(old(Entries()), key)
    {
      FindIsMapLookup(key);
      if key !in cacheMap {
        return false, 0;
      }
      var e := nodes[cacheMap[key]];
      Refresh(key, Hit(e));
      return true, e.plan;
    }

    method InsertPlan(key: u64, plan: nat)
      requires Valid()
      modifies `lruList, `nodes, `cacheMap
      ensures Valid()
      ensures Entries() == AfterInsert(old(Entries()), capacity, key, plan)
    {
      FindIsMapLookup(key);
      if key in cacheMap {
        Refresh(key, nodes[cacheMap[key]].(plan := plan));
        return;
      }
      if |cacheMap| >= capacity {
        EvictLast();
      }
      PushFront(Entry(key, plan, 1));
    }
  }
}
