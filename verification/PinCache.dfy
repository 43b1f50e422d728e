/** The query service's cache of memory-mapped files and the background
    threads that pin them, as an interleaving of steps around one mutex. */
module PinCache {
  import opened Bits

  datatype Mapped = Mapped(addr: nat, size: nat, pinned: bool, pinInProgress: bool)

  /** A background pin thread: it locks pages without holding the mutex, then takes the
      mutex to record the outcome. */
  datatype Thread = Thread(path: string, addr: nat, size: nat, phase: Phase)
  datatype Phase = Locking | Reporting(ok: bool) | Finished(pinned: bool)

  /** The mutex is free, or held by a request that has spawned its pin thread (or decided
      not to) and has yet to record the new mapping. */
  datatype Mutex = Free | Recording(path: string, addr: nat, size: nat, pinning: bool)

  /** `abandoned` records history: the cached paths whose pin thread could not be created
      after their flag had been set. */
  datatype State = State(cache: map<string, Mapped>, threads: seq<Thread>, mutex: Mutex, abandoned: set<string>)

  function Init(): State { State(map[], [], Free, {}) }

  /** `Request` carries the outcome of opening and mapping the file, `None` for a failure, and
      whether a thread can be created. */
  datatype Step =
    | Request(path: string, pin: bool, mapping: Option<(nat, nat)>, spawns: bool)
    | Record
    | LockPages(t: nat, ok: bool)
    | Report(t: nat)

  predicate IsAgb(path: string) { |path| >= 4 && path[|path| - 4..] == ".agb" }

  predicate Enabled(s: State, step: Step) {
    match step
    case Request(_, _, _, _) => s.mutex.Free?
    case Record => s.mutex.Recording?
    case LockPages(t, _) => t < |s.threads| && s.threads[t].phase.Locking?
    case Report(t) => s.mutex.Free? && t < |s.threads| && s.threads[t].phase.Reporting?
  }

  /** A request under the mutex: start pinning a cached file that is neither pinned nor
      being pinned, or map a new one and, if asked, spawn its pin thread first. A thread that cannot
      be created ends the request: the flag of a cached file stays set, a new file is not recorded. */
  function Prewarm(s: State, path: string, pin: bool, mapping: Option<(nat, nat)>, spawns: bool): State {
    if !IsAgb(path) then s
    else if path in s.cache then
      var m := s.cache[path];
      if !pin || m.pinned || m.pinInProgress then s
      else if spawns then StartPin(s, path, m)
      else Abandon(s, path, m)
    else match mapping
      case None => s
      case Some((addr, size)) => if pin && !spawns then s else MapFile(s, path, addr, size, pin)
  }

  function StartPin(s: State, path: string, m: Mapped): State {
    s.(cache := s.cache[path := m.(pinInProgress := true)], threads := s.threads + [Thread(path, m.addr, m.size, Locking)])
  }

  function Abandon(s: State, path: string, m: Mapped): State {
    s.(cache := s.cache[path := m.(pinInProgress := true)], abandoned := s.abandoned + {path})
  }

  function MapFile(s: State, path: string, addr: nat, size: nat, pin: bool): State {
    s.(threads := if pin then s.threads + [Thread(path, addr, size, Locking)] else s.threads,
       mutex := Recording(path, addr, size, pin))
  }

  /** The thread's report: a success pins the entry, and either way the attempt is over. */
  function Conclude(s: State, t: nat): State
    requires t < |s.threads| && s.threads[t].phase.Reporting?
  {
    var th := s.threads[t];
    var threads' := s.threads[t := th.(phase := Finished(th.phase.ok))];
    if th.path in s.cache then
      var m := s.cache[th.path];
      var m' := if th.phase.ok then m.(pinned := true, pinInProgress := false) else m.(pinInProgress := false);
      s.(cache := s.cache[th.path := m'], threads := threads')
    else s.(threads := threads')
  }

  function Do(s: State, step: Step): State
    requires Enabled(s, step)
  {
    match step
    case Request(path, pin, mapping, spawns) => Prewarm(s, path, pin, mapping, spawns)
    case Record =>
      var m := s.mutex;
      s.(cache := s.cache[m.path := Mapped(m.addr, m.size, false, m.pinning)], mutex := Free)
    case LockPages(t, ok) => s.(threads := s.threads[t := s.threads[t].(phase := Reporting(ok))])
    case Report(t) => Conclude(s, t)
  }

  /** Unfinished pin threads for a path. */
  function Pinning(threads: seq<Thread>, path: string): nat {
    if threads == [] then 0
    else
      var th := threads[|threads| - 1];
      Pinning(threads[..|threads| - 1], path) + Digit(th.path == path && !th.phase.Finished?)
  }

  /** A path's entry, counting one that is about to be recorded. */
  function Entry(s: State, path: string): Option<Mapped> {
    if s.mutex.Recording? && s.mutex.path == path then Some(Mapped(s.mutex.addr, s.mutex.size, false, s.mutex.pinning))
    else if path in s.cache then Some(s.cache[path])
    else None
  }

  /** What holds of one path. */
  ghost predicate PathInv(s: State, path: string) {
    match Entry(s, path)
    case None => Pinning(s.threads, path) == 0 && path !in s.abandoned
    case Some(m) =>
      && (path in s.abandoned ==> m.pinInProgress)
      && Pinning(s.threads, path) == Digit(m.pinInProgress && path !in s.abandoned)
      && !(m.pinned && m.pinInProgress)
      && (m.pinned <==> Locked(s.threads, path))
  }

  /** Every thread works, or worked, on exactly the region its path's entry records. */
  ghost predicate ThreadInv(s: State, t: nat)
    requires t < |s.threads|
  {
    var th := s.threads[t];
    Entry(s, th.path).Some? && Entry(s, th.path).value.addr == th.addr && Entry(s, th.path).value.size == th.size
  }

  /** Some pin thread for the path has finished with its pages locked. */
  ghost predicate Locked(threads: seq<Thread>, path: string) {
    exists t :: 0 <= t < |threads| && threads[t].path == path && threads[t].phase == Finished(true)
  }

  ghost predicate Inv(s: State) {
    && (forall path :: PathInv(s, path))
    && (forall t | 0 <= t < |s.threads| :: ThreadInv(s, t))
    && (s.mutex.Recording? ==> s.mutex.path !in s.cache)
  }

  lemma PinningSnoc(threads: seq<Thread>, th: Thread, path: string)
    ensures Pinning(threads + [th], path) == Pinning(threads, path) + Digit(th.path == path && !th.phase.Finished?)
  {
    assert (threads + [th])[..|threads|] == threads;
  }

  lemma {:induction false} PinningUpdate(threads: seq<Thread>, t: nat, th: Thread, path: string)
    requires t < |threads|
    ensures Pinning(threads[t := th], path) ==
            Pinning(threads, path)
            - Digit(threads[t].path == path && !threads[t].phase.Finished?) + Digit(th.path == path && !th.phase.Finished?)
  {
    var n := |threads| - 1;
    if t == n {
      assert threads[t := th][..n] == threads[..n];
    } else {
      assert threads[t := th][..n] == threads[..n][t := th];
      PinningUpdate(threads[..n], t, th, path);
    }
  }

  /** The thread that reports is the only unfinished one for its path. */
  lemma {:induction false} PinningAtLeast(threads: seq<Thread>, t: nat, path: string)
    requires t < |threads| && threads[t].path == path && !threads[t].phase.Finished?
    ensures Pinning(threads, path) >= 1
  {
    if t < |threads| - 1 { PinningAtLeast(threads[..|threads| - 1], t, path); }
  }

  lemma {:induction false} PinningAtLeastTwo(threads: seq<Thread>, t: nat, u: nat, path: string)
    requires t < u < |threads| && threads[t].path == path == threads[u].path
    requires !threads[t].phase.Finished? && !threads[u].phase.Finished?
    ensures Pinning(threads, path) >= 2
  {
    if u < |threads| - 1 {
      PinningAtLeastTwo(threads[..|threads| - 1], t, u, path);
    } else {
      PinningAtLeast(threads[..|threads| - 1], t, path);
    }
  }

  lemma StartPinKeepsPath(s: State, path: string, x: string)
    requires Inv(s) && s.mutex.Free? && path in s.cache && !s.cache[path].pinned && !s.cache[path].pinInProgress
    ensures PathInv(StartPin(s, path, s.cache[path]), x)
  {
    var th := Thread(path, s.cache[path].addr, s.cache[path].size, Locking);
    assert PathInv(s, x);
    PinningSnoc(s.threads, th, x);
    LockedFrame(s.threads, s.threads + [th], x);
  }

  lemma MapFileKeepsPath(s: State, path: string, addr: nat, size: nat, pin: bool, x: string)
    requires Inv(s) && s.mutex.Free? && path !in s.cache
    ensures PathInv(MapFile(s, path, addr, size, pin), x)
  {
    var th := Thread(path, addr, size, Locking);
    assert PathInv(s, x);
    PinningSnoc(s.threads, th, x);
    LockedFrame(s.threads, s.threads + [th], x);
    if x == path { LockedIsKnown(s, x); }
  }

  /** A request keeps every path's bookkeeping. */
  lemma RequestKeepsPath(s: State, path: string, pin: bool, mapping: Option<(nat, nat)>, spawns: bool, x: string)
    requires Inv(s) && s.mutex.Free?
    ensures PathInv(Prewarm(s, path, pin, mapping, spawns), x)
  {
    assert PathInv(s, x);
    if path in s.cache {
      if !s.cache[path].pinned && !s.cache[path].pinInProgress { StartPinKeepsPath(s, path, x); }
    } else if mapping.Some? {
      MapFileKeepsPath(s, path, mapping.value.0, mapping.value.1, pin, x);
    }
  }

  /** Adding a thread, or moving one on without finishing it, locks nothing. */
  lemma LockedFrame(threads: seq<Thread>, threads': seq<Thread>, path: string)
    requires |threads| <= |threads'|
    requires forall t | 0 <= t < |threads| ::
               threads'[t] == threads[t] || (!threads[t].phase.Finished? && !threads'[t].phase.Finished?)
    requires forall t | |threads| <= t < |threads'| :: !threads'[t].phase.Finished?
    ensures Locked(threads', path) == Locked(threads, path)
  {
    if Locked(threads, path) {
      var t :| 0 <= t < |threads| && threads[t].path == path && threads[t].phase == Finished(true);
      assert threads'[t] == threads[t];
    }
  }

  lemma LockedIsKnown(s: State, path: string)
    requires Inv(s)
    ensures Locked(s.threads, path) ==> Entry(s, path).Some?
  {
    if Locked(s.threads, path) {
      var t :| 0 <= t < |s.threads| && s.threads[t].path == path && s.threads[t].phase == Finished(true);
      assert ThreadInv(s, t);
    }
  }

  /** Finishing a thread locks its path exactly when it succeeded. */
  lemma LockedUpdate(threads: seq<Thread>, t: nat, ok: bool, path: string)
    requires t < |threads| && !threads[t].phase.Finished?
    ensures Locked(threads[t := threads[t].(phase := Finished(ok))], path) <==>
            Locked(threads, path) || (threads[t].path == path && ok)
  {
    var threads' := threads[t := threads[t].(phase := Finished(ok))];
    if threads[t].path == path && ok { assert threads'[t].phase == Finished(true); }
    if Locked(threads, path) {
      var u :| 0 <= u < |threads| && threads[u].path == path && threads[u].phase == Finished(true);
      assert threads'[u] == threads[u];
    }
  }

  lemma ReportKeepsPath(s: State, t: nat, x: string)
    requires Inv(s) && Enabled(s, Report(t))
    ensures PathInv(Conclude(s, t), x)
  {
    var th := s.threads[t];
    assert PathInv(s, x) && PathInv(s, th.path) && ThreadInv(s, t);
    PinningAtLeast(s.threads, t, th.path);
    PinningUpdate(s.threads, t, th.(phase := Finished(th.phase.ok)), x);
    LockedUpdate(s.threads, t, th.phase.ok, x);
  }

  lemma LockKeepsPath(s: State, t: nat, ok: bool, x: string)
    requires Inv(s) && Enabled(s, LockPages(t, ok))
    ensures PathInv(Do(s, LockPages(t, ok)), x)
  {
    assert PathInv(s, x);
    PinningUpdate(s.threads, t, s.threads[t].(phase := Reporting(ok)), x);
    LockedFrame(s.threads, Do(s, LockPages(t, ok)).threads, x);
  }

  lemma StepKeepsPath(s: State, step: Step, x: string)
    requires Inv(s) && Enabled(s, step)
    ensures PathInv(Do(s, step), x)
  {
    match step
    case Request(path, pin, mapping, spawns) => RequestKeepsPath(s, path, pin, mapping, spawns, x);
    case Record => assert PathInv(s, x);
    case LockPages(t, ok) => LockKeepsPath(s, t, ok, x);
    case Report(t) => ReportKeepsPath(s, t, x);
  }

  /** Recorded addresses and sizes never change, entries never disappear, and pinned stays pinned. */
  ghost predicate Persists(s: State, s': State) {
    forall path | path in s.cache ::
      && path in s'.cache
      && s'.cache[path].addr == s.cache[path].addr && s'.cache[path].size == s.cache[path].size
      && (s.cache[path].pinned ==> s'.cache[path].pinned)
  }

  lemma StepPersists(s: State, step: Step)
    requires Inv(s) && Enabled(s, step)
    ensures Persists(s, Do(s, step))
  {
  }

  /** The region behind a path, once known, is never another. */
  lemma StepKeepsRegion(s: State, step: Step, path: string)
    requires Inv(s) && Enabled(s, step) && Entry(s, path).Some?
    ensures Entry(Do(s, step), path).Some?
    ensures Entry(Do(s, step), path).value.addr == Entry(s, path).value.addr
    ensures Entry(Do(s, step), path).value.size == Entry(s, path).value.size
  {
  }

  lemma StepKeepsThread(s: State, step: Step, t: nat)
    requires Inv(s) && Enabled(s, step) && t < |Do(s, step).threads|
    ensures ThreadInv(Do(s, step), t)
  {
    if t < |s.threads| {
      assert ThreadInv(s, t);
      if Entry(s, s.threads[t].path).Some? { StepKeepsRegion(s, step, s.threads[t].path); }
    }
  }

  lemma StepKeepsInv(s: State, step: Step)
    requires Inv(s) && Enabled(s, step)
    ensures Inv(Do(s, step))
  {
    forall path ensures PathInv(Do(s, step), path) { StepKeepsPath(s, step, path); }
    forall t | 0 <= t < |Do(s, step).threads| ensures ThreadInv(Do(s, step), t) { StepKeepsThread(s, step, t); }
  }

  ghost predicate IsRun(steps: seq<Step>)
    decreases |steps|, 0
  {
    steps == [] || (IsRun(steps[..|steps| - 1]) && Enabled(After(steps[..|steps| - 1]), steps[|steps| - 1]))
  }

  ghost function After(steps: seq<Step>): State
    requires IsRun(steps)
    decreases |steps|, 1
  {
    if steps == [] then Init() else Do(After(steps[..|steps| - 1]), steps[|steps| - 1])
  }

  lemma {:induction false} RunInv(steps: seq<Step>)
    requires IsRun(steps)
    ensures Inv(After(steps))
  {
    if steps != [] {
      RunInv(steps[..|steps| - 1]);
      StepKeepsInv(After(steps[..|steps| - 1]), steps[|steps| - 1]);
    }
  }

  /** A path's flag and its unfinished pin threads match. */
  predicate FlagTrue(s: State, path: string) {
    Pinning(s.threads, path) == Digit(path in s.cache && s.cache[path].pinInProgress)
  }

  /** In every interleaving, whenever the mutex is free: a path has one unfinished pin thread when its
      flag says so and none otherwise, exactly when no creation of its thread ever failed; no entry is
      both pinned and being pinned; and an entry is pinned exactly when some pin thread of its path
      succeeded. */
  lemma FlagsTellTheTruth(steps: seq<Step>, path: string)
    requires IsRun(steps) && After(steps).mutex.Free?
    ensures var s := After(steps);
            && (FlagTrue(s, path) <==> path !in s.abandoned)
            && (path in s.cache ==>
                  !(s.cache[path].pinned && s.cache[path].pinInProgress)
                  && (s.cache[path].pinned <==> Locked(s.threads, path)))
  {
    RunInv(steps);
    assert PathInv(After(steps), path);
  }

  lemma Extend(steps: seq<Step>, s: State, step: Step) returns (steps': seq<Step>, s': State)
    requires IsRun(steps) && s == After(steps) && Enabled(s, step)
    ensures IsRun(steps') && s' == After(steps') == Do(s, step)
  {
    assert (steps + [step])[..|steps|] == steps;
    steps', s' := steps + [step], Do(s, step);
  }

  /** It does happen: a file mapped without pinning, then a request to pin it whose thread cannot be created. */
  lemma AbandonedReachable(path: string, addr: nat, size: nat) returns (steps: seq<Step>)
    requires IsAgb(path)
    ensures IsRun(steps) && path in After(steps).abandoned && After(steps).mutex.Free?
  {
    var s: State;
    steps, s := Extend([], Init(), Request(path, false, Some((addr, size)), true));
    steps, s := Extend(steps, s, Record);
    steps, s := Extend(steps, s, Request(path, true, None, false));
  }

  /** Pinning does happen: map, record, lock the pages, report. */
  lemma PinReachable(path: string, addr: nat, size: nat) returns (steps: seq<Step>)
    requires IsAgb(path)
    ensures IsRun(steps) && After(steps).mutex.Free?
    ensures path in After(steps).cache && After(steps).cache[path] == Mapped(addr, size, true, false)
  {
    var s: State;
    steps, s := Extend([], Init(), Request(path, true, Some((addr, size)), true));
    steps, s := Extend(steps, s, Record);
    steps, s := Extend(steps, s, LockPages(0, true));
    steps, s := Extend(steps, s, Report(0));
  }

  /** A later request pins a file that was mapped without pinning. */
  lemma LatePinReachable(path: string, addr: nat, size: nat) returns (steps: seq<Step>)
    requires IsAgb(path)
    ensures IsRun(steps) && After(steps).mutex.Free?
    ensures path in After(steps).cache && After(steps).cache[path] == Mapped(addr, size, true, false)
  {
    var s: State;
    steps, s := Extend([], Init(), Request(path, false, Some((addr, size)), true));
    steps, s := Extend(steps, s, Record);
    steps, s := Extend(steps, s, Request(path, true, None, true));
    steps, s := Extend(steps, s, LockPages(0, true));
    steps, s := Extend(steps, s, Report(0));
  }

  /** Whether a request has to start a pin thread: the file is cached and neither pinned nor being
      pinned, or it is not cached and could be mapped. */
  predicate NeedsPin(s: State, path: string, mapping: Option<(nat, nat)>) {
    if path in s.cache then !s.cache[path].pinned && !s.cache[path].pinInProgress else mapping.Some?
  }

  /** In every reachable state with the mutex free, a pinning request for an `.agb` file starts exactly
      one thread for it when it has to, and none otherwise; other files keep their threads. */
  lemma RequestStartsPin(steps: seq<Step>, stem: string, mapping: Option<(nat, nat)>, x: string)
    requires IsRun(steps) && After(steps).mutex.Free?
    ensures var s, path := After(steps), stem + ".agb";
            var s' := Do(s, Request(path, true, mapping, true));
            Pinning(s'.threads, x) == Pinning(s.threads, x) + Digit(x == path && NeedsPin(s, path, mapping))
  {
    var s, path := After(steps), stem + ".agb";
    assert path[|path| - 4..] == ".agb";
    if path in s.cache {
      PinningSnoc(s.threads, Thread(path, s.cache[path].addr, s.cache[path].size, Locking), x);
    } else if mapping.Some? {
      PinningSnoc(s.threads, Thread(path, mapping.value.0, mapping.value.1, Locking), x);
    }
  }

  /** A request without pinning starts nothing. */
  lemma PlainRequestStartsNothing(s: State, path: string, mapping: Option<(nat, nat)>, spawns: bool)
    requires s.mutex.Free?
    ensures Do(s, Request(path, false, mapping, spawns)).threads == s.threads
    ensures Do(s, Request(path, false, mapping, spawns)).cache == s.cache
  {
  }

  /** A file that could be mapped is cached once its request has recorded it, with the region that was
      mapped and the flag of the pin that was asked for; a file of another kind is left alone. */
  lemma MappedIsCached(steps: seq<Step>, path: string, pin: bool, addr: nat, size: nat)
    requires IsRun(steps) && After(steps).mutex.Free? && path !in After(steps).cache
    ensures var s := After(steps);
            var s' := Do(s, Request(path, pin, Some((addr, size)), true));
            if |path| >= 4 && path[|path| - 4..] == ".agb" then
              Enabled(s', Record) && Do(s', Record).mutex.Free? &&
              Do(s', Record).cache == s.cache[path := Mapped(addr, size, false, pin)]
            else s' == s
  {
  }

  /** Only a failed thread creation for the path abandons it. */
  lemma {:induction false} AbandonedOnlyByFailure(steps: seq<Step>, path: string)
    requires IsRun(steps)
    requires forall i | 0 <= i < |steps| && steps[i].Request? && steps[i].path == path :: steps[i].spawns
    ensures path !in After(steps).abandoned
  {
    if steps != [] {
      assert forall i | 0 <= i < |steps| - 1 :: steps[..|steps| - 1][i] == steps[i];
      AbandonedOnlyByFailure(steps[..|steps| - 1], path);
    }
  }

  /** An abandoned path is never pinned again, whatever is requested afterwards. */
  lemma {:induction false} AbandonedForGood(steps: seq<Step>, n: nat, path: string)
    requires IsRun(steps) && n <= |steps|
    ensures IsRun(steps[..n])
    ensures path in After(steps[..n]).abandoned ==> path in After(steps).abandoned && !Locked(After(steps).threads, path)
  {
    RunInv(steps);
    assert PathInv(After(steps), path);
    if n == |steps| {
      assert steps[..n] == steps;
    } else {
      var init := steps[..|steps| - 1];
      AbandonedForGood(init, n, path);
      assert init[..n] == steps[..n];
    }
  }

  /** A pin thread always locks the very region that is cached for its path. */
  lemma PinsTheCachedRegion(steps: seq<Step>, t: nat)
    requires IsRun(steps) && After(steps).mutex.Free? && t < |After(steps).threads|
    ensures var s := After(steps);
            var th := s.threads[t];
            th.path in s.cache && s.cache[th.path].addr == th.addr && s.cache[th.path].size == th.size
  {
    RunInv(steps);
    assert ThreadInv(After(steps), t);
  }

  /** Two unfinished pin threads never work on the same path. */
  lemma OnePinThreadPerPath(steps: seq<Step>, t: nat, u: nat)
    requires IsRun(steps) && t < u < |After(steps).threads|
    requires !After(steps).threads[t].phase.Finished? && !After(steps).threads[u].phase.Finished?
    ensures After(steps).threads[t].path != After(steps).threads[u].path
  {
    RunInv(steps);
    var s := After(steps);
    assert PathInv(s, s.threads[t].path);
    if s.threads[t].path == s.threads[u].path {
      PinningAtLeastTwo(s.threads, t, u, s.threads[t].path);
    }
  }

  /** What was cached after the first `n` steps is still cached, unmoved and no less pinned, at the end. */
  lemma {:induction false} CachePersists(steps: seq<Step>, n: nat)
    requires IsRun(steps) && n <= |steps|
    ensures IsRun(steps[..n]) && Persists(After(steps[..n]), After(steps))
  {
    if n == |steps| {
      assert steps[..n] == steps;
    } else {
      var init := steps[..|steps| - 1];
      CachePersists(init, n);
      assert init[..n] == steps[..n];
      RunInv(init);
      StepPersists(After(init), steps[|steps| - 1]);
    }
  }
}
