/**
  Calls on one cache entry followed to their end, in the steps of
  CacheProtocol.dfy: left to itself each of them returns after at most eight
  steps, having done what the cache that one thread sees does.
 */
module LoneCacheCalls {
  import opened Nodes
  import opened OperationCache
  import opened CacheProtocol

  /** The first position of a lookup, an insertion or an invalidation. */
  predicate Starts(th: Thread) {
    th.Peek? || th.Lock? || th.ClearNode?
  }

  /** The call that started at `start` is over. */
  predicate Over(start: Thread, th: Thread) {
    if start.Peek? then th.Found? else th.Idle?
  }

  /** At most how many steps are left. */
  function Remaining(th: Thread, uc: int): nat {
    match th
    case Peek(_) => 8
    case Acquire(_, seen) => if seen == uc then 6 else 7
    case ReadOp(_) => 5
    case ReadLeft(_) => 4
    case ReadRight(_, _) => 3
    case ReadNode(_) => 2
    case Release(_, _) => 1
    case Lock(_) => 6
    case WriteNode(_) => 5
    case WriteLeft(_) => 4
    case WriteRight(_) => 3
    case WriteOp(_) => 2
    case Unlock(_) => 1
    case ClearNode => 4
    case ClearLeft => 3
    case ClearRight => 2
    case ClearCount => 1
    case _ => 0
  }

  /** What a lookup alone answers on the entry. Codes 0 to 3 are those of and, or, not and xor. */
  function Answer(e: Entry, q: Query): Ptr {
    if e.useCount != -1 && e.op == q.op &&
         ((e.left == q.left && e.right == q.right) || (q.op <= 3 && e.left == q.right && e.right == q.left))
    then e.node else NULL
  }

  /** How far a lookup is that found the entry as `e0`. */
  predicate Looking(e0: Entry, e: Entry, q: Query, th: Thread) {
    match th
    case Peek(p) => p == q && e == e0
    case Acquire(p, seen) => p == q && e == e0 && e.node != NULL && seen >= 0
    case ReadOp(p) => p == q && e0.useCount >= 0 && e == e0.(useCount := e0.useCount + 1)
    case ReadLeft(p) => p == q && e0.useCount >= 0 && e == e0.(useCount := e0.useCount + 1) && e.op == q.op
    case ReadRight(p, left) =>
      p == q && e0.useCount >= 0 && e == e0.(useCount := e0.useCount + 1) && e.op == q.op && left == e.left
    case ReadNode(p) => p == q && e0.useCount >= 0 && e == e0.(useCount := e0.useCount + 1) && Answer(e0, q) == e.node
    case Release(p, out) =>
      p == q && e0.useCount >= 0 && e == e0.(useCount := e0.useCount + 1) && out == Answer(e0, q)
    case Found(p, out) => p == q && e == e0 && out == Answer(e0, q)
    case _ => false
  }

  /** How far an insertion is. */
  predicate Inserting(e0: Entry, e: Entry, f: Fact, th: Thread) {
    match th
    case Lock(g) => g == f && e == e0
    case WriteNode(g) => g == f && e0.useCount == 0 && e == e0.(useCount := -1)
    case WriteLeft(g) => g == f && e0.useCount == 0 && e == e0.(useCount := -1, node := f.node)
    case WriteRight(g) => g == f && e0.useCount == 0 && e == e0.(useCount := -1, node := f.node, left := f.left)
    case WriteOp(g) => g == f && e0.useCount == 0 && e == Entry(f.node, f.left, f.right, e0.op, -1)
    case Unlock(g) => g == f && e0.useCount == 0 && e == Entry(f.node, f.left, f.right, f.op, -1)
    case Idle => e == e0 || (e0.useCount == 0 && e == Entry(f.node, f.left, f.right, f.op, 0))
    case _ => false
  }

  /** How far an invalidation is. */
  predicate Clearing(e0: Entry, e: Entry, th: Thread) {
    match th
    case ClearNode => e == e0
    case ClearLeft => e == e0.(node := NULL)
    case ClearRight => e == e0.(node := NULL, left := NULL)
    case ClearCount => e == e0.(node := NULL, left := NULL, right := NULL)
    case Idle => e == Entry(NULL, NULL, NULL, e0.op, 0)
    case _ => false
  }

  predicate Midway(start: Thread, e0: Entry, e: Entry, th: Thread) {
    if start.Peek? then Looking(e0, e, start.q, th)
    else if start.Lock? then Inserting(e0, e, start.f, th)
    else start.ClearNode? && Clearing(e0, e, th)
  }

  /** Each step of a call alone keeps to its course and brings it closer to its end. */
  lemma StepGetsCloser(start: Thread, e0: Entry, e: Entry, e': Entry, th: Thread, th': Thread)
    requires Starts(start) && Midway(start, e0, e, th) && !Over(start, th) && Acts(th, th', e, e')
    requires e0.useCount >= -1
    ensures Midway(start, e0, e', th') && Remaining(th', e'.useCount) < Remaining(th, e.useCount)
  {
  }

  /** No call ever waits for another one: each position has a next step, whatever the entry holds. */
  lemma CallGetsOn(th: Thread, e: Entry) returns (to: Thread, e': Entry)
    requires !th.Idle?
    ensures Acts(th, to, e, e')
    ensures th.Lock? && e.useCount == 0 ==> to == WriteNode(th.f)
  {
    to, e' := Idle, e;
    match th
    case Peek(q) => to := if e.node == NULL then Found(q, NULL) else Acquire(q, 0);
    case Acquire(q, uc) =>
      if e.useCount == uc {
        to, e' := ReadOp(q), e.(useCount := uc + 1);
      } else {
        to := if e.useCount == -1 then Found(q, NULL) else Acquire(q, e.useCount);
      }
    case ReadOp(q) => to := if e.op == q.op then ReadLeft(q) else Release(q, NULL);
    case ReadLeft(q) => to := ReadRight(q, e.left);
    case ReadRight(q, left) => to := if Fits(q, left, e.right) then ReadNode(q) else Release(q, NULL);
    case ReadNode(q) => to := Release(q, e.node);
    case Release(q, out) => to, e' := Found(q, out), e.(useCount := e.useCount - 1);
    case Found(_, _) =>
    case Lock(f) =>
      if e.useCount == 0 { to, e' := WriteNode(f), e.(useCount := -1); }
    case WriteNode(f) => to, e' := WriteLeft(f), e.(node := f.node);
    case WriteLeft(f) => to, e' := WriteRight(f), e.(left := f.left);
    case WriteRight(f) => to, e' := WriteOp(f), e.(right := f.right);
    case WriteOp(f) => to, e' := Unlock(f), e.(op := f.op);
    case Unlock(_) => e' := e.(useCount := 0);
    case ClearNode => to, e' := ClearLeft, e.(node := NULL);
    case ClearLeft => to, e' := ClearRight, e.(left := NULL);
    case ClearRight => to, e' := ClearCount, e.(right := NULL);
    case ClearCount => e' := e.(useCount := 0);
  }

  /** An idle thread can begin any call; an insertion may give up although the entry is idle. */
  lemma ThreadsGoRound(e: Entry, q: Query, f: Fact)
    ensures q.left != NULL && (q.right == NULL <==> q.op == 2) ==> Acts(Idle, Peek(q), e, e)
    ensures f.left != NULL && (f.right == NULL <==> f.op == 2) ==> Acts(Idle, Lock(f), e, e)
    ensures Acts(Lock(f), Idle, e, e)
    ensures Acts(Idle, ClearNode, e, e)
    ensures forall out :: Acts(Found(q, out), Idle, e, e)
  {
  }

  // ---- Runs of one call

  /** A call of thread `t` from its start, with steps of that thread alone. */
  ghost predicate IsLoneRun(trace: seq<State>, t: nat) {
    && |trace| > 0 && t in trace[0].threads && Starts(trace[0].threads[t]) && trace[0].entry.useCount >= -1
    && forall i :: 0 <= i < |trace| - 1 ==> IsLoneStep(trace, i, t)
  }

  ghost predicate IsLoneStep(trace: seq<State>, i: nat, t: nat)
    requires |trace| > 0 && t in trace[0].threads && i + 1 < |trace|
  {
    Advances(trace[i], trace[i + 1], t) && !Over(trace[0].threads[t], trace[i].threads[t])
  }

  /**
    What the call has done. A lookup leaves the entry alone and returns its node
    unless a writer is inside or the entry is for another query; an insertion
    has overwritten an idle entry as a whole, and is on record, or has done
    nothing; an invalidation has emptied the entry.
   */
  predicate Did(s: State, s': State, start: Thread, end: Thread) {
    match start
    case Peek(q) => s'.entry == s.entry && s'.written == s.written && end == Found(q, Answer(s.entry, q))
    case Lock(f) =>
      end == Idle &&
      (|| (s'.entry == s.entry && s'.written == s.written)
       || (s.entry.useCount == 0 && s'.entry == Entry(f.node, f.left, f.right, f.op, 0)
           && s'.written == s.written + [f]))
    case ClearNode => end == Idle && s'.entry == Entry(NULL, NULL, NULL, s.entry.op, 0) && s'.written == s.written
    case _ => false
  }

  ghost predicate OnTheWay(s0: State, s: State, t: nat, i: nat)
    requires t in s0.threads
  {
    && t in s.threads && i + Remaining(s.threads[t], s.entry.useCount) <= 8
    && Midway(s0.threads[t], s0.entry, s.entry, s.threads[t])
    && if Over(s0.threads[t], s.threads[t]) then Did(s0, s, s0.threads[t], s.threads[t]) else s.written == s0.written
  }

  lemma StepDoes(s0: State, s: State, s': State, start: Thread, th: Thread, th': Thread)
    requires Starts(start) && s0.entry.useCount >= -1 && s.written == s0.written && !Over(start, th)
    requires Midway(start, s0.entry, s.entry, th) && Midway(start, s0.entry, s'.entry, th')
    requires Acts(th, th', s.entry, s'.entry) && s'.written == s.written + Log(th)
    ensures if Over(start, th') then Did(s0, s', start, th') else s'.written == s0.written
  {
  }

  lemma {:induction false} RunIsOnTheWay(trace: seq<State>, t: nat, i: nat)
    requires IsLoneRun(trace, t) && i < |trace|
    ensures OnTheWay(trace[0], trace[i], t, i)
  {
    hide Acts, Did;
    if i > 0 {
      hide Midway, Remaining;
      RunIsOnTheWay(trace, t, i - 1);
      assert IsLoneStep(trace, i - 1, t);
      var s0, s, s' := trace[0], trace[i - 1], trace[i];
      var start := s0.threads[t];
      StepGetsCloser(start, s0.entry, s.entry, s'.entry, s.threads[t], s'.threads[t]);
      StepDoes(s0, s, s', start, s.threads[t], s'.threads[t]);
    }
  }

  lemma LoneCallGetsOn(trace: seq<State>, t: nat) returns (s': State)
    requires IsLoneRun(trace, t) && t in trace[|trace| - 1].threads
    requires !Over(trace[0].threads[t], trace[|trace| - 1].threads[t])
    ensures IsLoneRun(trace + [s'], t) && t in s'.threads
    ensures var th := trace[|trace| - 1].threads[t];
      th.Lock? && trace[|trace| - 1].entry.useCount == 0 ==> s'.threads[t] == WriteNode(th.f)
  {
    hide Acts, Midway, Remaining, Did;
    var last := trace[|trace| - 1];
    RunIsOnTheWay(trace, t, |trace| - 1);
    StillRunning(trace[0], last, t, |trace| - 1);
    var to, e' := CallGetsOn(last.threads[t], last.entry);
    s' := State(e', last.threads[t := to], last.written + Log(last.threads[t]));
    forall i | 0 <= i < |trace| ensures IsLoneStep(trace + [s'], i, t) {
      if i < |trace| - 1 {
        assert IsLoneStep(trace, i, t);
      }
    }
  }

  lemma StillRunning(s0: State, s: State, t: nat, i: nat)
    requires t in s0.threads && Starts(s0.threads[t]) && OnTheWay(s0, s, t, i) && !Over(s0.threads[t], s.threads[t])
    ensures !s.threads[t].Idle?
  {
    hide Did, Acts, Remaining;
  }

  /**
    Every run of a call that is left to itself stops after at most eight steps;
    it stops only by returning, and then it has done what the cache as one
    thread sees it does.
   */
  lemma LoneCallReturns(trace: seq<State>, t: nat)
    requires IsLoneRun(trace, t)
    ensures |trace| <= 9
    ensures var last, start := trace[|trace| - 1], trace[0].threads[t];
      && t in last.threads
      && if Over(start, last.threads[t]) then Did(trace[0], last, start, last.threads[t])
         else exists s' :: IsLoneRun(trace + [s'], t)
  {
    hide Acts, Midway, Remaining, Did, IsLoneStep;
    RunIsOnTheWay(trace, t, |trace| - 1);
    if !Over(trace[0].threads[t], trace[|trace| - 1].threads[t]) {
      var s' := LoneCallGetsOn(trace, t);
    }
  }

  lemma {:induction false} RunToTheEnd(trace: seq<State>, t: nat) returns (whole: seq<State>)
    requires IsLoneRun(trace, t)
    ensures IsLoneRun(whole, t) && trace <= whole && t in whole[|whole| - 1].threads
    ensures Over(whole[0].threads[t], whole[|whole| - 1].threads[t])
    decreases 9 - |trace|
  {
    hide Acts, Did, IsLoneStep;
    LoneCallReturns(trace, t);
    if Over(trace[0].threads[t], trace[|trace| - 1].threads[t]) {
      whole := trace;
    } else {
      var s' := LoneCallGetsOn(trace, t);
      LoneCallReturns(trace + [s'], t);
      whole := RunToTheEnd(trace + [s'], t);
    }
  }

  /** A lookup left to itself finds the node of a matching entry; an insertion can write an idle one. */
  lemma LoneCallCanReturn(s: State, t: nat) returns (trace: seq<State>)
    requires t in s.threads && Starts(s.threads[t]) && s.entry.useCount >= -1
    ensures IsLoneRun(trace, t) && |trace| <= 9 && trace[0] == s && t in trace[|trace| - 1].threads
    ensures Did(s, trace[|trace| - 1], s.threads[t], trace[|trace| - 1].threads[t])
    ensures s.threads[t].Lock? && s.entry.useCount == 0 ==>
      trace[|trace| - 1].written == s.written + [s.threads[t].f]
  {
    hide Acts, Did, IsLoneStep, Midway, Remaining;
    var first := [s];
    if s.threads[t].Lock? && s.entry.useCount == 0 {
      var s' := LoneCallGetsOn(first, t);
      first := first + [s'];
    }
    trace := RunToTheEnd(first, t);
    LoneCallReturns(trace, t);
    if s.threads[t].Lock? && s.entry.useCount == 0 {
      WriterWrites(trace, t, |trace| - 1);
    }
  }

  /** An insertion that has acquired the entry is not given up. */
  lemma {:induction false} WriterWrites(trace: seq<State>, t: nat, i: nat)
    requires IsLoneRun(trace, t) && trace[0].threads[t].Lock? && 1 <= i < |trace|
    requires t in trace[1].threads && trace[1].threads[t].WriteNode?
    ensures t in trace[i].threads && !trace[i].threads[t].Lock?
    ensures trace[i].threads[t].Idle? ==> trace[i].written == trace[0].written + [trace[0].threads[t].f]
  {
    RunIsOnTheWay(trace, t, i);
    hide Did, Midway, Remaining;
    if i > 1 {
      WriterWrites(trace, t, i - 1);
    }
    RunIsOnTheWay(trace, t, i - 1);
    assert IsLoneStep(trace, i - 1, t);
  }
}
