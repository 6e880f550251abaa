/**
  Calls of `NodeTable::getOrCreateNode` followed to their end, in the steps of
  SharedInsertion.dfy: a call is only ever held up by the table lock, one that
  has the lock to itself returns within eighteen steps with the right node, and
  of two that race on one key the loser recycles its slot.
 */
module LoneCalls {
  import opened Nodes
  import opened Diagrams
  import opened Hashing
  import opened Collections
  import opened Buckets
  import opened SharedInsertion

  /** The thread is inside a call with this key. */
  predicate Calls(th: Thread, key: Cell) {
    !th.Idle? && !th.Done? && !th.GcWait? && !th.GcCollect? && th.key == key
  }

  /** Nobody but `t` is inside the lock. */
  ghost predicate Alone(s: State, t: nat) {
    t in s.threads && forall u :: u in s.threads && u != t ==> !Owns(s.threads[u]) && !Shares(s.threads[u])
  }

  ghost predicate Known(tb: Table, key: Cell) {
    exists p :: p in tb.graph && tb.graph[p] == key
  }

  // ---- A call always gets on

  /** At most how many steps of its own a call has left, while nobody else takes the free slots. */
  function Remaining(th: Thread, free: bool): nat {
    match th
    case Enter(_) => if free then 9 else 18
    case Hash(_) => if free then 8 else 17
    case Find(_, _) => if free then 7 else 16
    case Allocate(_, _) => if free then 6 else 15
    case Full(_) => 14
    case Wait(_) => 13
    case Collect(_) => 12
    case Extend(_) => 11
    case Rehash(_) => if free then 10 else 19
    case Insert(_, _, _) => 5
    case Count(_, _) => 4
    case Unlock(_, _) => 3
    case TryGrow(_, _) => 2
    case Recycle(_, _, _) => 2
    case Grow(_, _) => 1
    case Leave(_, _) => 1
    case _ => 0
  }

  /** Each step of a call brings it closer to its end. */
  lemma StepGetsCloser(s: State, s': State, t: nat, key: Cell)
    requires Advances(s, s', t) && Calls(s.threads[t], key)
    ensures Remaining(s'.threads[t], s'.table.free != {}) < Remaining(s.threads[t], s.table.free != {})
    ensures Calls(s'.threads[t], key) || (s'.threads[t].Done? && s'.threads[t].key == key)
  {
    hide Absent, CollectsTo, Rehashed, Flatten, HaveCells, HasKey, CanShare, CanOwn, BucketIndex;
  }

  /** The thread's next step changes the table. */
  ghost predicate WillChange(tb: Table, th: Thread, key: Cell) {
    || (th.Allocate? && tb.free != {}) || (th.Insert? && Absent(tb, th.idx, key)) || th.Recycle? || th.Count?
    || th.Collect? || th.Extend? || th.Rehash? || th.Grow?
  }

  lemma NextMove(s: State, th: Thread, key: Cell) returns (to: Thread)
    requires LocalOk(s.table, th) && Calls(th, key) && !WillChange(s.table, th, key)
    requires (th.Enter? ==> CanShare(s)) && (th.Wait? ==> CanOwn(s))
    ensures Goes(s, th, to)
  {
    hide CanShare, CanOwn, BucketIndex;
    var tb := s.table;
    match th
    case Enter(_) => to := Hash(key);
    case Hash(_) => to := Find(key, BucketIndex(key, |tb.buckets|));
    case Find(_, idx) =>
      if p :| HasKey(tb, idx, key, p) {
        to := Leave(key, p);
      } else {
        to := Allocate(key, idx);
      }
    case Allocate(_, _) => to := Full(key);
    case Insert(_, idx, c) =>
      var p :| HasKey(tb, idx, key, p);
      to := Recycle(key, c, p);
    case Leave(_, p) => to := Done(key, p);
    case Unlock(_, p) => to := TryGrow(key, p);
    case TryGrow(_, p) => to := Done(key, p);
    case Full(_) => to := Wait(key);
    case Wait(_) => to := Collect(key);
  }

  lemma NextInsertion(tb: Table, th: Thread, key: Cell) returns (to: Thread, tb': Table)
    requires LocalOk(tb, th) && Calls(th, key) && WillChange(tb, th, key)
    requires th.Allocate? || th.Insert? || th.Recycle? || th.Count?
    ensures Takes(tb, tb', th, to) || SharedInsertion.Links(tb, tb', th, to) || GivesBack(tb, tb', th, to) ||
      Counts(tb, tb', th, to)
  {
    hide BucketIndex;
    match th
    case Allocate(_, idx) =>
      var c :| c in tb.free;
      to, tb' := Insert(key, idx, c), tb.(free := tb.free - {c});
    case Insert(_, idx, c) =>
      to := Count(key, c);
      tb' := tb.(graph := tb.graph[c := key], buckets := tb.buckets[idx := tb.buckets[idx] + [c]]);
    case Recycle(_, c, p) => to, tb' := Leave(key, p), tb.(free := tb.free + {c});
    case Count(_, p) => to, tb' := Unlock(key, p), tb.(nodeCount := tb.nodeCount + 1);
  }

  lemma NextCollection(tb: Table, kept: set<Ptr>) returns (tb': Table)
    requires kept <= tb.graph.Keys
    ensures CollectsTo(tb, tb', kept)
  {
    tb' := tb.(graph := Restrict(tb.graph, kept), buckets := FilterAll(tb.buckets, kept),
               free := tb.free + (tb.graph.Keys - kept), nodeCount := tb.nodeCount - |tb.graph.Keys - kept|);
    hide Restrict, FilterAll;
  }

  lemma NextExtension(tb: Table, th: Thread) returns (tb': Table)
    requires th.Extend? && NULL !in tb.slots
    ensures ExtendsBy(tb, tb', th, Rehash(th.key))
  {
    if tb.free == {} {
      var p := FreshNumber(tb.slots);
      tb' := tb.(slots := tb.slots + {p}, free := {p});
      assert tb'.slots - tb.slots == {p};
    } else {
      assert tb.free + (tb.slots - tb.slots) == tb.free;
      tb' := tb;
    }
  }

  lemma NextMaintenance(tb: Table, th: Thread, key: Cell) returns (to: Thread, tb': Table)
    requires LocalOk(tb, th) && Calls(th, key) && NULL !in tb.slots
    requires th.Collect? || th.Extend? || th.Rehash? || th.Grow?
    ensures Collects(tb, tb', th, to) || ExtendsBy(tb, tb', th, to) || Grows(tb, tb', th, to)
  {
    hide Rehashed, Flatten, HaveCells, CollectsTo, ExtendsBy;
    tb' := tb;
    match th
    case Collect(_) =>
      to := Extend(key);
      tb' := NextCollection(tb, tb.graph.Keys);
    case Extend(_) =>
      to := Rehash(key);
      tb' := NextExtension(tb, th);
    case Rehash(_) => to := Enter(key);
    case Grow(_, p) => to := Done(key, p);
  }

  lemma NextChange(s: State, th: Thread, key: Cell) returns (to: Thread, tb': Table)
    requires LocalOk(s.table, th) && NULL !in s.table.slots && Calls(th, key)
    requires (th.Enter? ==> CanShare(s)) && (th.Wait? ==> CanOwn(s))
    ensures Changes(s, State(tb', s.threads), th, to)
  {
    hide LocalOk, Goes, Takes, SharedInsertion.Links, GivesBack, Counts, Collects, ExtendsBy, Grows, CanShare, CanOwn,
      WillChange;
    tb' := s.table;
    if !WillChange(s.table, th, key) {
      to := NextMove(s, th, key);
    } else if th.Allocate? || th.Insert? || th.Recycle? || th.Count? {
      to, tb' := NextInsertion(s.table, th, key);
    } else {
      MaintenanceLeft(s.table, th, key);
      to, tb' := NextMaintenance(s.table, th, key);
    }
  }

  /** Only the lock can hold a call up: one that does not wait for it has a next step. */
  lemma CallGetsOn(s: State, t: nat, key: Cell) returns (s': State)
    requires t in s.threads && Calls(s.threads[t], key) && Inv(s)
    requires s.threads[t].Enter? ==> CanShare(s)
    requires s.threads[t].Wait? ==> CanOwn(s)
    ensures Advances(s, s', t)
  {
    InvHere(s, t);
    hide Inv, LocalOk, Changes, CanShare, CanOwn;
    var to, tb' := NextChange(s, s.threads[t], key);
    s' := State(tb', s.threads[t := to]);
    ChangesTable(s, State(tb', s.threads), s', s.threads[t], to);
  }

  /** What a step changes besides its own thread's position is the table. */
  lemma ChangesTable(s: State, s1: State, s2: State, from: Thread, to: Thread)
    requires Changes(s, s1, from, to) && s1.table == s2.table
    ensures Changes(s, s2, from, to)
  {
    hide Goes, Takes, SharedInsertion.Links, GivesBack, Counts, Collects, ExtendsBy, Grows;
  }

  lemma InvHere(s: State, t: nat)
    requires Inv(s) && t in s.threads
    ensures LocalOk(s.table, s.threads[t]) && TableOk(s.table) && NULL !in s.table.slots
  {
    hide LocalOk, TableOk, LockOk, HandsDiffer, CountOk;
  }

  lemma MaintenanceLeft(tb: Table, th: Thread, key: Cell)
    requires WillChange(tb, th, key) && !(th.Allocate? || th.Insert? || th.Recycle? || th.Count?)
    ensures th.Collect? || th.Extend? || th.Rehash? || th.Grow?
  {
    hide Absent;
  }

  /** The interleavings start from tables of any size with any slots and threads. */
  lemma AnyStart(size: nat, slots: set<Ptr>, ids: set<nat>) returns (s: State)
    requires size > 0 && 0 !in slots
    ensures Init(s) && |s.table.buckets| == size && s.table.slots == slots && s.threads.Keys == ids
  {
    s := State(Table(map[], seq(size, _ => []), slots, slots, 0), map t | t in ids :: Idle);
  }

  /** An idle thread can begin a call with any key, or a collection; one that has returned is idle again. */
  lemma ThreadsGoRound(s: State, t: nat, key: Cell)
    requires t in s.threads
    ensures s.threads[t].Idle? ==> Advances(s, s.(threads := s.threads[t := Enter(key)]), t)
    ensures s.threads[t].Idle? ==> Advances(s, s.(threads := s.threads[t := GcWait]), t)
    ensures s.threads[t].Done? ==> Advances(s, s.(threads := s.threads[t := Idle]), t)
  {
    hide Takes, SharedInsertion.Links, GivesBack, Counts, Collects, ExtendsBy, Grows;
  }

  // ---- What a call does that has the lock to itself

  /** What the call works on: the table as it was or, if that had no free slot, what a collection left of it. */
  ghost predicate Base(before: Table, tb: Table) {
    if before.free != {} then tb == before else Extends(tb.graph, before.graph) && before.slots <= tb.slots
  }

  /** One free slot is the thread's. */
  ghost predicate Took(before: Table, tb: Table, c: Ptr) {
    if before.free != {} then c in before.free && tb == before.(free := before.free - {c})
    else Extends(tb.graph, before.graph) && before.slots <= tb.slots
  }

  /** One free slot has become the node of the key. */
  ghost predicate Made(before: Table, tb: Table, key: Cell, p: Ptr, counted: nat) {
    && p in tb.graph && tb.graph[p] == key
    && if before.free != {} then
         && p in before.free && tb.graph == before.graph[p := key] && tb.free == before.free - {p}
         && tb.slots == before.slots && tb.nodeCount == before.nodeCount + counted
       else Extends(tb.graph - {p}, before.graph) && before.slots <= tb.slots
  }

  /**
    What the call has done when it returns `p`. A known key leaves the table as
    it was. For a new key one free slot becomes one node more; if none was free
    there are, next to that node, none but old ones.
   */
  ghost predicate Did(before: Table, tb: Table, key: Cell, p: Ptr) {
    && p in tb.graph && tb.graph[p] == key
    && if Known(before, key) then tb == before else Made(before, tb, key, p, 1)
  }

  /** How far the call is that found the table as `before`. */
  ghost predicate Midway(before: Table, tb: Table, th: Thread, key: Cell) {
    match th
    case Enter(_) => Base(before, tb) && (Known(before, key) ==> tb == before)
    case Hash(_) => Base(before, tb) && (Known(before, key) ==> tb == before)
    case Find(_, _) => Base(before, tb) && (Known(before, key) ==> tb == before)
    case Allocate(_, _) => Base(before, tb) && !Known(before, key)
    case Insert(_, _, c) => Took(before, tb, c) && !Known(before, key)
    case Count(_, p) => Made(before, tb, key, p, 0) && !Known(before, key)
    case Unlock(_, p) => Made(before, tb, key, p, 1) && !Known(before, key)
    case TryGrow(_, p) => Made(before, tb, key, p, 1) && !Known(before, key)
    case Grow(_, p) => Made(before, tb, key, p, 1) && !Known(before, key)
    case Leave(_, p) => tb == before && p in tb.graph && tb.graph[p] == key
    case Done(_, p) => Did(before, tb, key, p)
    case Recycle(_, _, _) => false
    case _ => Base(before, tb) && !Known(before, key) && before.free == {}
  }

  lemma MidwayGoes(before: Table, s: State, from: Thread, to: Thread, key: Cell)
    requires TableOk(s.table) && LocalOk(s.table, from) && Calls(from, key) && Goes(s, from, to)
    requires Midway(before, s.table, from, key)
    ensures Midway(before, s.table, to, key)
  {
    hide BucketIndex, CanShare, CanOwn;
    if from.Find? && to.Allocate? {
      KeyIsNew(s.table, from.idx, key);
    }
  }

  lemma MidwayInserts(before: Table, tb: Table, tb': Table, from: Thread, to: Thread, key: Cell)
    requires Calls(from, key) && Midway(before, tb, from, key)
    requires Takes(tb, tb', from, to) || SharedInsertion.Links(tb, tb', from, to) || GivesBack(tb, tb', from, to) ||
      Counts(tb, tb', from, to)
    ensures Midway(before, tb', to, key)
  {
    hide Absent;
  }

  lemma MidwayCollects(before: Table, tb: Table, tb': Table, from: Thread, to: Thread, key: Cell)
    requires Calls(from, key) && Midway(before, tb, from, key) && Collects(tb, tb', from, to)
    ensures Midway(before, tb', to, key)
  {
    hide Known, CollectsTo, FilterAll, Restrict, Extends;
    var kept :| CollectsTo(tb, tb', kept);
    CollectedFields(tb, tb', kept);
    PartExtends(tb.graph, before.graph, kept);
  }

  lemma PartExtends(g: Graph, h: Graph, kept: set<Ptr>)
    requires Extends(g, h)
    ensures Extends(Restrict(g, kept), h)
  {
  }

  lemma MidwayMaintains(before: Table, tb: Table, tb': Table, from: Thread, to: Thread, key: Cell)
    requires Calls(from, key) && Midway(before, tb, from, key)
    requires ExtendsBy(tb, tb', from, to) || Grows(tb, tb', from, to)
    ensures Midway(before, tb', to, key)
  {
    hide Rehashed, Flatten, HaveCells;
    OwnStepKinds(tb, tb', from, to);
    assert tb'.graph == tb.graph && tb'.nodeCount == tb.nodeCount && tb.slots <= tb'.slots;
    assert tb.slots == tb'.slots ==> tb'.free == tb.free;
    assert from.Grow? ==> tb.slots == tb'.slots;
    hide Grows, ExtendsBy, Known;
  }

  lemma MidwayStep(before: Table, s: State, s': State, t: nat, key: Cell)
    requires Advances(s, s', t) && Calls(s.threads[t], key) && Midway(before, s.table, s.threads[t], key) && Inv(s)
    ensures Midway(before, s'.table, s'.threads[t], key)
  {
    InvHere(s, t);
    hide Inv, LocalOk, TableOk, Goes, Takes, SharedInsertion.Links, GivesBack, Counts, Collects, ExtendsBy, Grows,
      Midway;
    var tb, tb', from, to := s.table, s'.table, s.threads[t], s'.threads[t];
    if Goes(s, from, to) && tb' == tb {
      MidwayGoes(before, s, from, to, key);
    } else if Takes(tb, tb', from, to) || SharedInsertion.Links(tb, tb', from, to) || GivesBack(tb, tb', from, to) ||
      Counts(tb, tb', from, to) {
      MidwayInserts(before, tb, tb', from, to, key);
    } else if Collects(tb, tb', from, to) {
      MidwayCollects(before, tb, tb', from, to, key);
    } else {
      MidwayMaintains(before, tb, tb', from, to, key);
    }
  }

  // ---- Runs of one call

  /** A call of thread `t` from its start, with steps of that thread alone while it has the lock to itself. */
  ghost predicate IsCallRun(trace: seq<State>, t: nat, key: Cell) {
    && |trace| > 0 && Inv(trace[0]) && Alone(trace[0], t) && trace[0].threads[t] == Enter(key)
    && forall i :: 0 <= i < |trace| - 1 ==> IsCallStep(trace, i, t, key)
  }

  ghost predicate IsCallStep(trace: seq<State>, i: nat, t: nat, key: Cell)
    requires i + 1 < |trace|
  {
    t in trace[i].threads && Calls(trace[i].threads[t], key) && Advances(trace[i], trace[i + 1], t)
  }

  /** Where the call is after `i` of its steps. */
  ghost predicate OnTheWay(before: Table, s: State, t: nat, key: Cell, i: nat) {
    && Alone(s, t) && Midway(before, s.table, s.threads[t], key)
    && (Calls(s.threads[t], key) || (s.threads[t].Done? && s.threads[t].key == key))
    && i + Remaining(s.threads[t], s.table.free != {}) <= 18
    && Inv(s)
  }

  lemma OneStepOn(before: Table, s: State, s': State, t: nat, key: Cell, i: nat)
    requires OnTheWay(before, s, t, key, i) && Calls(s.threads[t], key) && Advances(s, s', t)
    ensures OnTheWay(before, s', t, key, i + 1)
  {
    hide Inv, Changes, Midway, Remaining, Owns, Shares, Calls;
    StepGetsCloser(s, s', t, key);
    MidwayStep(before, s, s', t, key);
    StepKeepsInv(s, s', t);
  }

  lemma {:induction false} RunIsOnTheWay(trace: seq<State>, t: nat, key: Cell, i: nat)
    requires IsCallRun(trace, t, key) && i < |trace|
    ensures OnTheWay(trace[0].table, trace[i], t, key, i) && t in trace[i].threads
  {
    hide Inv, Advances, Owns, Shares;
    if i > 0 {
      hide OnTheWay;
      RunIsOnTheWay(trace, t, key, i - 1);
      assert IsCallStep(trace, i - 1, t, key);
      OneStepOn(trace[0].table, trace[i - 1], trace[i], t, key, i - 1);
    }
  }

  /** A call that has the lock to itself and has not returned has a next step. */
  lemma LoneCallGetsOn(trace: seq<State>, t: nat, key: Cell) returns (s': State)
    requires IsCallRun(trace, t, key) && t in trace[|trace| - 1].threads && !trace[|trace| - 1].threads[t].Done?
    ensures IsCallRun(trace + [s'], t, key)
  {
    hide Inv, Advances, Alone, OnTheWay, CanShare, CanOwn;
    var last := trace[|trace| - 1];
    RunIsOnTheWay(trace, t, key, |trace| - 1);
    StillCalling(trace[0].table, last, t, key, |trace| - 1);
    LockIsFree(last, t);
    s' := CallGetsOn(last, t, key);
    forall i | 0 <= i < |trace| ensures IsCallStep(trace + [s'], i, t, key) {
      if i < |trace| - 1 {
        assert IsCallStep(trace, i, t, key);
      }
    }
  }

  lemma StillCalling(before: Table, s: State, t: nat, key: Cell, i: nat)
    requires OnTheWay(before, s, t, key, i) && !s.threads[t].Done?
    ensures Calls(s.threads[t], key) && Alone(s, t) && Inv(s)
  {
    hide Inv, Alone, Midway, Remaining;
  }

  lemma LockIsFree(s: State, t: nat)
    requires Alone(s, t)
    ensures s.threads[t].Enter? ==> CanShare(s)
    ensures s.threads[t].Wait? ==> CanOwn(s)
  {
  }

  /**
    Every run of a call that has the lock to itself, whatever a collection keeps
    and whichever slots it is given, stops after at most eighteen steps; it
    stops only by returning, and then it has done what it should.
   */
  lemma LoneCallReturns(trace: seq<State>, t: nat, key: Cell)
    requires IsCallRun(trace, t, key)
    ensures |trace| <= 19
    ensures var last := trace[|trace| - 1];
      && t in last.threads
      && (if last.threads[t].Done? then
            last.threads[t].key == key && Did(trace[0].table, last.table, key, last.threads[t].node)
          else exists s' :: IsCallRun(trace + [s'], t, key))
  {
    hide Inv, Advances, Did, IsCallStep, Alone;
    var n := |trace| - 1;
    RunIsOnTheWay(trace, t, key, n);
    if !trace[n].threads[t].Done? {
      var s' := LoneCallGetsOn(trace, t, key);
    }
  }

  lemma {:induction false} RunToTheEnd(trace: seq<State>, t: nat, key: Cell) returns (whole: seq<State>)
    requires IsCallRun(trace, t, key)
    ensures IsCallRun(whole, t, key) && whole[0] == trace[0]
    ensures t in whole[|whole| - 1].threads && whole[|whole| - 1].threads[t].Done?
    decreases 19 - |trace|
  {
    hide Inv, Advances, Did, Alone, IsCallStep;
    LoneCallReturns(trace, t, key);
    if trace[|trace| - 1].threads[t].Done? {
      whole := trace;
    } else {
      var s' := LoneCallGetsOn(trace, t, key);
      LoneCallReturns(trace + [s'], t, key);
      whole := RunToTheEnd(trace + [s'], t, key);
    }
  }

  /** From any state in which nobody else is inside the lock a waiting call can run to its end. */
  lemma LoneCallCanReturn(s: State, t: nat, key: Cell) returns (trace: seq<State>, p: Ptr)
    requires Inv(s) && Alone(s, t) && s.threads[t] == Enter(key)
    ensures IsCallRun(trace, t, key) && |trace| <= 19 && trace[0] == s
    ensures t in trace[|trace| - 1].threads && trace[|trace| - 1].threads[t] == Done(key, p)
    ensures Did(s.table, trace[|trace| - 1].table, key, p)
  {
    hide Inv, Alone, Did, IsCallStep;
    trace := RunToTheEnd([s], t, key);
    LoneCallReturns(trace, t, key);
    p := trace[|trace| - 1].threads[t].node;
  }

  // ---- Two calls that race on one key

  /**
    Two threads have searched in vain for one key and each has a slot. Once one
    of them has inserted, the other has no choice but to find that node and to
    go and recycle its own slot.
   */
  lemma LoserRecycles(s: State, s1: State, s2: State, t: nat, u: nat)
    requires t != u && t in s.threads && u in s.threads && s.threads[t].Insert? && s.threads[u].Insert?
    requires s.threads[t].key == s.threads[u].key && Inv(s)
    requires Advances(s, s1, t) && s1.threads[t].Count? && Advances(s1, s2, u)
    ensures s2.threads[u] == Recycle(s.threads[u].key, s.threads[u].candidate, s.threads[t].candidate)
    ensures s2.table == s1.table
  {
    StepKeepsInv(s, s1, t);
    InvHere(s, t);
    InvHere(s, u);
    InvHere(s1, u);
    hide Inv, TableOk;
    InsertLinks(s, s1, s.threads[t], s1.threads[t]);
    FindsTheNode(s1, s2, s.threads[u], s2.threads[u], s.threads[t].candidate);
  }

  lemma InsertLinks(s: State, s': State, from: Thread, to: Thread)
    requires LocalOk(s.table, from) && Changes(s, s', from, to) && from.Insert? && to.Count?
    ensures |s'.table.buckets| > 0 && s'.table.graph == s.table.graph[from.candidate := from.key]
    ensures HasKey(s'.table, BucketIndex(from.key, |s'.table.buckets|), from.key, from.candidate)
  {
    hide Absent, BucketIndex, Rehashed, Flatten, HaveCells, CollectsTo;
  }

  lemma FindsTheNode(s: State, s': State, from: Thread, to: Thread, p: Ptr)
    requires from.Insert? && LocalOk(s.table, from) && TableOk(s.table) && Changes(s, s', from, to)
    requires HasKey(s.table, BucketIndex(from.key, |s.table.buckets|), from.key, p)
    ensures to == Recycle(from.key, from.candidate, p) && s'.table == s.table
  {
    hide BucketIndex, Rehashed, Flatten, HaveCells, CollectsTo, Placed;
  }

  // ---- Such a race from the start

  /** Thread 0's positions. */
  function Winner(key: Cell, i: nat): Thread {
    if i == 0 then Idle
    else if i == 1 then Enter(key)
    else if i == 2 then Hash(key)
    else if i == 3 then Find(key, 0)
    else if i == 4 then Allocate(key, 0)
    else if i <= 10 then Insert(key, 0, 1)
    else if i <= 14 then Count(key, 1)
    else if i == 15 then Unlock(key, 1)
    else if i == 16 then TryGrow(key, 1)
    else Done(key, 1)
  }

  /** Thread 1's positions. */
  function Loser(key: Cell, i: nat): Thread {
    if i <= 5 then Idle
    else if i == 6 then Enter(key)
    else if i == 7 then Hash(key)
    else if i == 8 then Find(key, 0)
    else if i == 9 then Allocate(key, 0)
    else if i <= 11 then Insert(key, 0, 2)
    else if i == 12 then Recycle(key, 2, 1)
    else if i == 13 then Leave(key, 1)
    else Done(key, 1)
  }

  /** One bucket and two slots. */
  function RacedTable(key: Cell, i: nat): Table {
    var free := if i < 5 then {1, 2} else if i < 10 then {2} else if i < 13 then {} else {2};
    if i < 11 then Table(map[], [[]], {1, 2}, free, 0)
    else Table(map[1 := key], [[1]], {1, 2}, free, if i < 15 then 0 else 1)
  }

  function Raced(key: Cell, i: nat): State {
    State(RacedTable(key, i), map[0 := Winner(key, i), 1 := Loser(key, i)])
  }

  lemma WinnerMoves(key: Cell, i: nat)
    requires i < 5 || 14 <= i < 17
    ensures Advances(Raced(key, i), Raced(key, i + 1), 0)
  {
  }

  lemma WinnerLinks(key: Cell)
    ensures Advances(Raced(key, 10), Raced(key, 11), 0)
  {
    var empty: seq<Ptr> := [];
    assert empty + [1] == [1] && [empty][0 := [1]] == [[1]];
  }

  lemma LoserMoves(key: Cell, i: nat)
    requires 5 <= i < 10 || 11 <= i < 14
    ensures Advances(Raced(key, i), Raced(key, i + 1), 1)
  {
  }

  /** For any key two calls can race so that one recycles its slot and both return the other's node. */
  lemma CallsRace(key: Cell) returns (trace: seq<State>)
    ensures IsBehaviour(trace) && |trace| == 18
    ensures 0 in trace[11].threads && 1 in trace[11].threads
    ensures trace[11].threads[0] == Count(key, 1) && trace[11].threads[1] == Insert(key, 0, 2)
    ensures 1 in trace[12].threads && trace[12].threads[1] == Recycle(key, 2, 1) && trace[12].table.free == {}
    ensures trace[17].threads == map[0 := Done(key, 1), 1 := Done(key, 1)]
    ensures trace[17].table == Table(map[1 := key], [[1]], {1, 2}, {2}, 1)
  {
    hide Advances, Winner, Loser, RacedTable, Init;
    trace := seq(18, i requires 0 <= i < 18 => Raced(key, i));
    forall i | 0 <= i < 17 ensures Follows(trace, i) {
      if i == 10 {
        WinnerLinks(key);
        assert Advances(trace[i], trace[i + 1], 0);
      } else if i < 5 || 14 <= i {
        WinnerMoves(key, i);
        assert Advances(trace[i], trace[i + 1], 0);
      } else {
        LoserMoves(key, i);
        assert Advances(trace[i], trace[i + 1], 1);
      }
    }
    RaceBegins(key);
    RaceEnds(key);
  }

  lemma RaceBegins(key: Cell)
    ensures Init(Raced(key, 0))
  {
  }

  lemma RaceEnds(key: Cell)
    ensures Raced(key, 11).threads == map[0 := Count(key, 1), 1 := Insert(key, 0, 2)]
    ensures Raced(key, 12).threads[1] == Recycle(key, 2, 1) && Raced(key, 12).table.free == {}
    ensures Raced(key, 17).threads == map[0 := Done(key, 1), 1 := Done(key, 1)]
    ensures Raced(key, 17).table == Table(map[1 := key], [[1]], {1, 2}, {2}, 1)
  {
  }

  // ---- Growing under the lock

  /** An owner with more than four nodes a bucket can move them to any larger size; with fewer it moves nothing. */
  lemma LoadDecides(s: State, t: nat, size: nat) returns (s': State)
    requires t in s.threads && (s.threads[t].Grow? || s.threads[t].Rehash?) && Inv(s) && size > |s.table.buckets|
    ensures s.table.nodeCount > 4 * |s.table.buckets| ==>
      && Advances(s, s', t) && |s'.table.buckets| == size
      && s'.threads[t] == var th := s.threads[t]; if th.Grow? then Done(th.key, th.node) else Enter(th.key)
    ensures s.table.nodeCount <= 4 * |s.table.buckets| ==> forall s2 :: Advances(s, s2, t) ==> s2.table == s.table
  {
    hide Inv, TableOk, Goes, Takes, SharedInsertion.Links, GivesBack, Counts, Collects, ExtendsBy, Grows;
    InvHere(s, t);
    var th := s.threads[t];
    var tb' := GrowTo(s.table, th, size);
    s' := State(tb', s.threads[t := if th.Grow? then Done(th.key, th.node) else Enter(th.key)]);
    forall s2 | Advances(s, s2, t) && s.table.nodeCount <= 4 * |s.table.buckets| ensures s2.table == s.table {
      OwnerGrows(s, s2, th, s2.threads[t]);
    }
  }

  lemma GrowTo(tb: Table, th: Thread, size: nat) returns (tb': Table)
    requires TableOk(tb) && |tb.buckets| > 0 && size > |tb.buckets|
    ensures |tb'.buckets| == size
    ensures tb.nodeCount > 4 * |tb.buckets| && th.Grow? ==> Grows(tb, tb', th, Done(th.key, th.node))
    ensures tb.nodeCount > 4 * |tb.buckets| && th.Rehash? ==> Grows(tb, tb', th, Enter(th.key))
  {
    hide Flatten, Rehashed, HaveCells;
    FlattenIsTable(tb.graph, tb.buckets);
    tb' := tb.(buckets := Rehashed(tb.graph, Flatten(tb.buckets), |Flatten(tb.buckets)|, size));
  }

  lemma OwnerGrows(s: State, s2: State, from: Thread, to: Thread)
    requires Changes(s, s2, from, to) && (from.Grow? || from.Rehash?) && s.table.nodeCount <= 4 * |s.table.buckets|
    ensures s2.table == s.table
  {
    hide Absent, BucketIndex, Rehashed, Flatten, HaveCells, CollectsTo;
  }

  /** After an insertion a thread with the lock to itself can grow an overfull table, to any larger size. */
  lemma GrowthRuns(s: State, t: nat, size: nat) returns (s1: State, s2: State)
    requires Alone(s, t) && s.threads[t].TryGrow? && Inv(s)
    requires size > |s.table.buckets| && s.table.nodeCount > 4 * |s.table.buckets|
    ensures Advances(s, s1, t) && Advances(s1, s2, t)
    ensures s2.threads[t] == Done(s.threads[t].key, s.threads[t].node) && |s2.table.buckets| == size
  {
    hide Inv, Goes, Takes, SharedInsertion.Links, GivesBack, Counts, Collects, ExtendsBy, Grows, Owns, Shares, CanOwn;
    var to := Grow(s.threads[t].key, s.threads[t].node);
    s1 := State(s.table, s.threads[t := to]);
    OwnerEnters(s, t, to);
    assert Advances(s, s1, t);
    StepKeepsInv(s, s1, t);
    s2 := LoadDecides(s1, t, size);
  }

  /** A thread that waits to own the lock gets it when nobody else is inside. */
  lemma OwnerEnters(s: State, t: nat, to: Thread)
    requires Alone(s, t)
    requires var th := s.threads[t];
      (th.TryGrow? && to == Grow(th.key, th.node)) || (th.GcWait? && to == GcCollect)
    ensures Goes(s, s.threads[t], to)
  {
  }

  /** A collection on request with the lock to itself can keep any part of the table. */
  lemma GcRuns(s: State, t: nat, kept: set<Ptr>) returns (s1: State, s2: State)
    requires Alone(s, t) && s.threads[t].GcWait? && kept <= s.table.graph.Keys
    ensures Advances(s, s1, t) && Advances(s1, s2, t)
    ensures s2.threads == s.threads[t := Idle] && s2.table.graph == Restrict(s.table.graph, kept)
    ensures s2.table.free == s.table.free + (s.table.graph.Keys - kept)
    ensures s2.table.nodeCount == s.table.nodeCount - |s.table.graph.Keys - kept|
  {
    hide Goes, Takes, SharedInsertion.Links, GivesBack, Counts, ExtendsBy, Grows, Owns, Shares, CanOwn;
    s1 := State(s.table, s.threads[t := GcCollect]);
    OwnerEnters(s, t, GcCollect);
    var tb' := NextCollection(s.table, kept);
    s2 := State(tb', s1.threads[t := Idle]);
    assert s2.threads == s.threads[t := Idle];
    CollectedFields(s.table, tb', kept);
    hide CollectsTo;
  }
}
