/**
  Calls of the lock-free find-or-insert followed to their end, in the steps of
  LockFreeBucket.dfy: no call ever has to wait for another one, and a call that
  runs alone, wherever it is, returns a linked node after a bounded number of
  steps unless its weak exchange keeps failing for no reason.
 */
module LoneListCalls {
  import opened Collections
  import opened Nodes
  import opened LockFreeBuckets

  predicate Calls(th: Thread, key: Cell) {
    !th.Idle? && !th.Done? && th.key == key
  }

  /** The exchange fails although the head is what the thread expects. */
  predicate Spurious(s: State, s': State, t: nat) {
    && t in s.threads && t in s'.threads && s.threads[t].Swap? && s'.threads[t].Rescan?
    && s.threads[t].node in s.heap && s.heap[s.threads[t].node].next == s.head
  }

  /** A thread that expects the head `h` needs one exchange or, to rescan first, the nodes linked since. */
  function Tries(s: State, h: Ptr): nat {
    if h == s.head then 1 else |s.chain| - Pos(s.chain, h) + 3
  }

  /** At most how many steps a call has left if it runs alone. */
  function Remaining(s: State, th: Thread): int {
    match th
    case Load(_) => |s.chain| + 3
    case Scan(_, oldHead, p) => Pos(s.chain, p) + 1 + Tries(s, oldHead)
    case Swap(_, _, n) => if n in s.heap then Tries(s, s.heap[n].next) else 0
    case Rescan(_, oldHead, n, p) =>
      Pos(s.chain, p) - Pos(s.chain, oldHead) + 1 + if n in s.heap then Tries(s, s.heap[n].next) else 0
    case _ => 0
  }

  lemma RemainingBound(s: State, t: nat)
    requires Inv(s) && t in s.threads
    ensures 0 <= Remaining(s, s.threads[t]) <= 2 * |s.chain| + 5
    ensures s.threads[t].Load? || s.threads[t].Scan? || s.threads[t].Swap? || s.threads[t].Rescan? ==>
      Remaining(s, s.threads[t]) >= 1
  {
    hide ListOk, NoKey;
    assert LocalOk(s, t);
  }

  /** `th` is inside the same call as before, or that call has returned. */
  ghost predicate GoesOn(s: State, s': State, t: nat, key: Cell) {
    && t in s.threads && t in s'.threads && Remaining(s', s'.threads[t]) < Remaining(s, s.threads[t])
    && (Calls(s'.threads[t], key) || (s'.threads[t].Done? && s'.threads[t].key == key))
  }

  lemma ScanGetsCloser(s: State, s': State, t: nat, key: Cell)
    requires t in s.threads && Calls(s.threads[t], key) && s.threads[t].Scan? && Advances(s, s', t)
    requires ListOk(s) && LocalOk(s, t)
    ensures GoesOn(s, s', t, key)
  {
    hide ListOk, NoKey, Pos;
    HeadIsLast(s);
    PosNull(s);
    var Scan(_, oldHead, p) := s.threads[t];
    if p != NULL { NextIsBefore(s, p); }
  }

  lemma RescanGetsCloser(s: State, s': State, t: nat, key: Cell)
    requires t in s.threads && Calls(s.threads[t], key) && s.threads[t].Rescan? && Advances(s, s', t)
    requires ListOk(s) && LocalOk(s, t)
    ensures GoesOn(s, s', t, key)
  {
    hide ListOk, NoKey, Pos;
    var Rescan(_, oldHead, n, p) := s.threads[t];
    if p != oldHead {
      RescanTarget(s, oldHead, p);
      NextIsBefore(s, p);
    }
  }

  lemma SwapGetsCloser(s: State, s': State, t: nat, key: Cell)
    requires t in s.threads && Calls(s.threads[t], key) && s.threads[t].Swap? && Advances(s, s', t)
    requires !Spurious(s, s', t) && ListOk(s) && LocalOk(s, t)
    ensures GoesOn(s, s', t, key)
  {
    hide ListOk, NoKey, Pos;
    HeadIsLast(s);
  }

  /** Each step of a call alone brings it closer to its end, but for a spurious failure. */
  lemma StepGetsCloser(s: State, s': State, t: nat, key: Cell)
    requires t in s.threads && Calls(s.threads[t], key) && Advances(s, s', t) && !Spurious(s, s', t) && Inv(s)
    ensures GoesOn(s, s', t, key)
  {
    assert ListOk(s) && LocalOk(s, t);
    hide Inv, ListOk, LocalOk;
    if s.threads[t].Scan? {
      ScanGetsCloser(s, s', t, key);
    } else if s.threads[t].Swap? {
      SwapGetsCloser(s, s', t, key);
    } else if s.threads[t].Rescan? {
      RescanGetsCloser(s, s', t, key);
    } else {
      HeadIsLast(s);
    }
  }

  /** A thread inside a call always has a next step, whatever the others do. */
  lemma CallGetsOn(s: State, t: nat, key: Cell) returns (s': State)
    requires t in s.threads && Calls(s.threads[t], key) && Inv(s)
    ensures Advances(s, s', t) && !Spurious(s, s', t)
  {
    assert ListOk(s) && LocalOk(s, t);
    hide Inv, NoKey, Pos;
    match s.threads[t]
    case Load(_) => s' := s.(threads := s.threads[t := Scan(key, s.head, s.head)]);
    case Scan(_, oldHead, p) =>
      if p == NULL {
        var n := FreshNumber(s.heap.Keys);
        s' := s.(heap := s.heap[n := ListNode(key, oldHead, false)], threads := s.threads[t := Swap(key, oldHead, n)]);
        assert Allocates(s, s', t, key, oldHead, n);
      } else if s.heap[p].key == key {
        s' := s.(threads := s.threads[t := Done(key, p)], returned := s.returned + {(key, p)});
      } else {
        s' := s.(threads := s.threads[t := Scan(key, oldHead, s.heap[p].next)]);
      }
    case Swap(_, oldHead, n) =>
      s' := if s.heap[n].next == s.head
            then s.(head := n, chain := s.chain + [n], threads := s.threads[t := Done(key, n)],
                    returned := s.returned + {(key, n)})
            else s.(heap := s.heap[n := s.heap[n].(next := s.head)],
                    threads := s.threads[t := Rescan(key, oldHead, n, s.head)]);
    case Rescan(_, oldHead, n, p) =>
      if p == oldHead {
        s' := s.(threads := s.threads[t := Swap(key, s.heap[n].next, n)]);
      } else {
        RescanMeetsNode(s, t, oldHead, p);
        s' := if s.heap[p].key == key
              then s.(heap := s.heap - {n}, threads := s.threads[t := Done(key, p)],
                      returned := s.returned + {(key, p)})
              else s.(threads := s.threads[t := Rescan(key, oldHead, n, s.heap[p].next)]);
      }
  }

  lemma RescanMeetsNode(s: State, t: nat, oldHead: Ptr, p: Ptr)
    requires ListOk(s) && t in s.threads && LocalOk(s, t)
    requires s.threads[t].Rescan? && s.threads[t].oldHead == oldHead && s.threads[t].p == p != oldHead
    ensures p in s.heap
  {
    hide ListOk, NoKey, Pos;
    RescanTarget(s, oldHead, p);
  }

  /** An idle thread can begin a call with any key, and one that has returned is idle again. */
  lemma ThreadsGoRound(s: State, t: nat, key: Cell)
    requires t in s.threads
    ensures s.threads[t].Idle? ==> Advances(s, s.(threads := s.threads[t := Load(key)]), t)
    ensures s.threads[t].Done? ==> Advances(s, s.(threads := s.threads[t := Idle]), t)
  {
    assert s.threads[t].Idle? ==> Local(s, s.(threads := s.threads[t := Load(key)]), t, Load(key));
  }

  /** The weak exchange may fail although it need not. */
  lemma ExchangeMayFail(s: State, t: nat) returns (s': State)
    requires t in s.threads && s.threads[t].Swap? && Inv(s)
    ensures Advances(s, s', t) && t in s'.threads && s'.threads[t].Rescan? && s'.chain == s.chain
  {
    assert LocalOk(s, t);
    hide Inv, ListOk, NoKey, Pos;
    var Swap(key, oldHead, n) := s.threads[t];
    s' := s.(heap := s.heap[n := s.heap[n].(next := s.head)],
             threads := s.threads[t := Rescan(key, oldHead, n, s.head)]);
  }

  /** An exchange that fails for a reason has lost to a call that linked a node since. */
  lemma FailureIsProgress(s: State, s': State, t: nat)
    requires t in s.threads && t in s'.threads && s.threads[t].Swap? && s'.threads[t].Rescan? && Inv(s)
    requires Advances(s, s', t) && !Spurious(s, s', t)
    ensures Pos(s.chain, s.threads[t].oldHead) < |s.chain|
  {
    assert ListOk(s) && LocalOk(s, t);
    hide Inv, NoKey;
    HeadIsLast(s);
    if Pos(s.chain, s.threads[t].oldHead) == |s.chain| {
      SamePos(s.chain, s.threads[t].oldHead, s.head);
    }
  }

  lemma SamePos(chain: seq<Ptr>, p: Ptr, q: Ptr)
    requires Linked(chain, p) && Linked(chain, q) && Pos(chain, p) == Pos(chain, q)
    ensures p == q
  {
  }

  // ---- Runs of one thread alone, to the end of its call

  /** Steps of thread `t` alone, from wherever its call is, with no spurious failure. */
  ghost predicate IsLoneRun(trace: seq<State>, t: nat, key: Cell) {
    && |trace| > 0 && Inv(trace[0]) && t in trace[0].threads && Calls(trace[0].threads[t], key)
    && forall i :: 0 <= i < |trace| - 1 ==> IsLoneStep(trace, i, t, key)
  }

  ghost predicate IsLoneStep(trace: seq<State>, i: nat, t: nat, key: Cell)
    requires i + 1 < |trace|
  {
    && t in trace[i].threads && Calls(trace[i].threads[t], key)
    && Advances(trace[i], trace[i + 1], t) && !Spurious(trace[i], trace[i + 1], t)
  }

  /** The linked nodes are the same, and unchanged. */
  ghost predicate SameList(s: State, s': State) {
    s'.chain == s.chain && forall p :: p in s.chain && p in s.heap ==> p in s'.heap && s'.heap[p] == s.heap[p]
  }

  ghost predicate HasKey(s: State, key: Cell) {
    exists p :: p in s.chain && p in s.heap && s.heap[p].key == key
  }

  /** The list as it was, if the key was linked; else with one node more, the one returned. */
  ghost predicate Did(before: State, s: State, key: Cell, r: Ptr) {
    && r in s.chain && r in s.heap && s.heap[r].key == key
    && if HasKey(before, key) then SameList(before, s) else s.chain == before.chain + [r]
  }

  ghost predicate OnTheWay(before: State, s: State, t: nat, key: Cell, i: nat) {
    && t in s.threads && t in before.threads && i + Remaining(s, s.threads[t]) <= Remaining(before, before.threads[t])
    && (if Calls(s.threads[t], key) then SameList(before, s)
        else s.threads[t].Done? && s.threads[t].key == key && Did(before, s, key, s.threads[t].result))
    && Inv(s)
  }

  lemma ChainAfter(s: State, s': State, t: nat, key: Cell)
    requires t in s.threads && t in s'.threads && Calls(s.threads[t], key) && ThreadStep(s, s', t)
    ensures s'.chain == s.chain || (s'.threads[t].Done? && s'.chain == s.chain + [s'.threads[t].result])
  {
  }

  lemma FoundIsLinked(s: State, s': State, t: nat, key: Cell)
    requires t in s.threads && t in s'.threads && s'.threads[t].Done? && s'.threads[t].key == key && Inv(s')
    ensures var r := s'.threads[t].result; r in s'.chain && r in s'.heap && s'.heap[r].key == key
  {
    hide ListOk, OwnersDiffer;
    DoneIsReturned(s', t);
  }

  lemma LinkedIsNew(s: State, s': State, key: Cell, n: Ptr, r: Ptr)
    requires ListOk(s) && ListOk(s') && Frame(s, s', n) && s'.chain == s.chain + [r]
    requires r in s'.heap && s'.heap[r].key == key
    ensures !HasKey(s, key)
  {
    forall p | p in s.chain && p in s.heap ensures s.heap[p].key != key {
      var i :| 0 <= i < |s.chain| && s.chain[i] == p;
      assert s'.heap[s'.chain[i]].key != s'.heap[s'.chain[|s.chain|]].key;
    }
  }

  lemma FoundIsOld(s: State, s': State, key: Cell, n: Ptr, r: Ptr)
    requires ListOk(s) && Frame(s, s', n) && s'.chain == s.chain
    requires r in s'.chain && r in s'.heap && s'.heap[r].key == key
    ensures HasKey(s, key)
  {
    assert r in s.heap && s.heap[r].key == key;
  }

  lemma StepDoes(s: State, s': State, t: nat, key: Cell)
    requires t in s.threads && Calls(s.threads[t], key) && Advances(s, s', t) && Inv(s) && Inv(s')
    ensures t in s'.threads
    ensures Calls(s'.threads[t], key) ==> SameList(s, s')
    ensures s'.threads[t].Done? && s'.threads[t].key == key ==> Did(s, s', key, s'.threads[t].result)
  {
    assert ListOk(s) && LocalOk(s, t) && ListOk(s');
    hide Inv, ListOk, LocalOk, ThreadStep, HasKey, Own;
    StepFrame(s, s', t);
    ChainAfter(s, s', t, key);
    if s'.threads[t].Done? && s'.threads[t].key == key {
      var r := s'.threads[t].result;
      FoundIsLinked(s, s', t, key);
      if s'.chain == s.chain {
        FoundIsOld(s, s', key, Touched(s, s', t), r);
      } else {
        LinkedIsNew(s, s', key, Touched(s, s', t), r);
      }
    }
  }

  /** What one step does after steps that left the list alone. */
  lemma DoesFromStart(before: State, s: State, s': State, key: Cell, r: Ptr)
    requires SameList(before, s) && ListOk(before)
    ensures SameList(s, s') ==> SameList(before, s')
    ensures Did(s, s', key, r) ==> Did(before, s', key, r)
  {
    assert HasKey(before, key) <==> HasKey(s, key);
  }

  lemma OneStepOn(before: State, s: State, s': State, t: nat, key: Cell, i: nat)
    requires OnTheWay(before, s, t, key, i) && Calls(s.threads[t], key) && ListOk(before)
    requires Advances(s, s', t) && !Spurious(s, s', t)
    ensures OnTheWay(before, s', t, key, i + 1)
  {
    hide Inv, ThreadStep, Remaining, Spurious, SameList, Did, ListOk;
    StepGetsCloser(s, s', t, key);
    StepKeepsInv(s, s', t);
    StepDoes(s, s', t, key);
    DoesFromStart(before, s, s', key, if s'.threads[t].Done? then s'.threads[t].result else NULL);
  }

  lemma {:induction false} RunIsOnTheWay(trace: seq<State>, t: nat, key: Cell, i: nat)
    requires IsLoneRun(trace, t, key) && i < |trace|
    ensures OnTheWay(trace[0], trace[i], t, key, i) && t in trace[i].threads && t in trace[0].threads
  {
    hide LocalOk, ThreadStep, Remaining, ListOk, OwnersDiffer, ReturnedOk;
    if i == 0 {
      assert SameList(trace[0], trace[0]);
    } else {
      hide Inv, Advances, OnTheWay;
      RunIsOnTheWay(trace, t, key, i - 1);
      assert IsLoneStep(trace, i - 1, t, key);
      ListOkHere(trace[0]);
      OneStepOn(trace[0], trace[i - 1], trace[i], t, key, i - 1);
    }
  }

  lemma ListOkHere(s: State)
    requires Inv(s)
    ensures ListOk(s)
  {
  }

  /**
    A call left to itself, at whatever point others stopped: every run of it
    without a spurious failure ends within twice as many steps as there are
    linked nodes, and five; it ends only by returning a linked node with its
    key; and the list is as it was, or if the key was not linked has exactly
    that node more.
   */
  lemma LoneCallReturns(trace: seq<State>, t: nat, key: Cell)
    requires IsLoneRun(trace, t, key)
    ensures |trace| - 1 <= 2 * |trace[0].chain| + 5
    ensures var last := trace[|trace| - 1];
      && t in last.threads
      && (if last.threads[t].Done? then
            last.threads[t].key == key && Did(trace[0], last, key, last.threads[t].result)
          else exists s' :: IsLoneRun(trace + [s'], t, key))
  {
    hide Inv, Advances, Did, IsLoneStep, Remaining;
    var n := |trace| - 1;
    RunIsOnTheWay(trace, t, key, n);
    RemainingBound(trace[0], t);
    RemainingBound(trace[n], t);
    if !trace[n].threads[t].Done? {
      var s' := LoneCallGetsOn(trace, t, key);
    }
  }

  lemma LoneCallGetsOn(trace: seq<State>, t: nat, key: Cell) returns (s': State)
    requires IsLoneRun(trace, t, key) && t in trace[|trace| - 1].threads && !trace[|trace| - 1].threads[t].Done?
    ensures IsLoneRun(trace + [s'], t, key)
  {
    hide Inv, Advances, Spurious, Remaining;
    var last := trace[|trace| - 1];
    RunIsOnTheWay(trace, t, key, |trace| - 1);
    s' := CallGetsOn(last, t, key);
    forall i | 0 <= i < |trace| ensures IsLoneStep(trace + [s'], i, t, key) {
      if i < |trace| - 1 {
        assert IsLoneStep(trace, i, t, key);
      }
    }
  }

  lemma {:induction false} RunToTheEnd(trace: seq<State>, t: nat, key: Cell) returns (whole: seq<State>)
    requires IsLoneRun(trace, t, key)
    ensures IsLoneRun(whole, t, key) && whole[0] == trace[0]
    ensures t in whole[|whole| - 1].threads && whole[|whole| - 1].threads[t].Done?
    decreases 2 * |trace[0].chain| + 6 - |trace|
  {
    hide Inv, Advances, Did, IsLoneStep;
    LoneCallReturns(trace, t, key);
    if trace[|trace| - 1].threads[t].Done? {
      whole := trace;
    } else {
      var s' := LoneCallGetsOn(trace, t, key);
      LoneCallReturns(trace + [s'], t, key);
      whole := RunToTheEnd(trace + [s'], t, key);
    }
  }

  /** From every state of the list every call can run to its end alone. */
  lemma LoneCallCanReturn(s: State, t: nat, key: Cell) returns (trace: seq<State>, r: Ptr)
    requires t in s.threads && Calls(s.threads[t], key) && Inv(s)
    ensures IsLoneRun(trace, t, key) && |trace| - 1 <= 2 * |s.chain| + 5 && trace[0] == s
    ensures t in trace[|trace| - 1].threads && trace[|trace| - 1].threads[t] == Done(key, r)
    ensures Did(s, trace[|trace| - 1], key, r)
  {
    hide Inv, Did, IsLoneStep;
    trace := RunToTheEnd([s], t, key);
    LoneCallReturns(trace, t, key);
    r := trace[|trace| - 1].threads[t].result;
  }
}
