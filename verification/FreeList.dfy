/**
  `popFree` and `pushFree` of src/NodeAllocator.cpp interleaved, one shared
  access per step: the load of the head, the read or write of a link, and the
  compare-exchange are apart, as they are in the code.
 */
module FreeListSteps {
  import opened Collections
  import opened Nodes

  /** Where a thread is, with its local variables. */
  datatype Thread =
    | Idle
    | PopNext(h: Ptr)             // has loaded the head, reads its link
    | PopSwap(h: Ptr, n: Ptr)     // exchanges `h` for `n`
    | PopClear(h: Ptr)            // has the slot, clears its link
    | PushLoad(p: Ptr)
    | PushLink(p: Ptr, h: Ptr)    // links its slot to the head it loaded
    | PushSwap(p: Ptr, h: Ptr)    // exchanges `h` for `p`

  /**
    `freeList_`, the links of all slots, the threads, which thread holds which
    slots, and, for the proof, the free list as it should be.
   */
  datatype State = State(head: Ptr, next: map<Ptr, Ptr>, threads: map<nat, Thread>, held: set<(nat, Ptr)>,
      free: seq<Ptr>)

  predicate Local(s: State, s': State, t: nat, to: Thread) {
    s' == s.(threads := s.threads[t := to])
  }

  /** After a failed exchange, or at the start: the head is loaded. */
  predicate LoadsForPop(s: State, s': State, t: nat) {
    Local(s, s', t, if s.head == NULL then Idle else PopNext(s.head))
  }

  predicate Pops(s: State, s': State, t: nat, h: Ptr, n: Ptr) {
    && s.head == h
    && s' == s.(head := n, threads := s.threads[t := PopClear(h)], held := s.held + {(t, h)},
                free := if s.free == [] then [] else s.free[1..])
  }

  predicate Pushes(s: State, s': State, t: nat, p: Ptr, h: Ptr) {
    && s.head == h
    && s' == s.(head := p, threads := s.threads[t := Idle], held := s.held - {(t, p)}, free := [p] + s.free)
  }

  ghost predicate ThreadStep(s: State, s': State, t: nat)
    requires t in s.threads
  {
    match s.threads[t]
    case Idle => LoadsForPop(s, s', t) || exists p :: (t, p) in s.held && Local(s, s', t, PushLoad(p))
    case PopNext(h) => h in s.next && Local(s, s', t, PopSwap(h, s.next[h]))
    case PopSwap(h, n) => Pops(s, s', t, h, n) || LoadsForPop(s, s', t)
    case PopClear(h) => s' == s.(next := s.next[h := NULL], threads := s.threads[t := Idle])
    case PushLoad(p) => Local(s, s', t, PushLink(p, s.head))
    case PushLink(p, h) => s' == s.(next := s.next[p := h], threads := s.threads[t := PushSwap(p, h)])
    case PushSwap(p, h) => Pushes(s, s', t, p, h) || Local(s, s', t, PushLink(p, s.head))
  }

  ghost predicate Advances(s: State, s': State, t: nat) {
    t in s.threads && ThreadStep(s, s', t)
  }

  /** The list is as it should be, and no slot is in two places. */
  ghost predicate Exclusive(s: State) {
    && Chain(s.next, s.head, s.free) && Distinct(s.free)
    && (forall x, y :: x in s.held && y in s.held && x.1 == y.1 ==> x == y)
    && (forall x :: x in s.held ==> x.1 !in s.free && x.1 != NULL && x.1 in s.next)
  }

  /** What a thread knows of the slot it works on. */
  predicate LocalOk(s: State, t: nat)
    requires t in s.threads
  {
    match s.threads[t]
    case Idle => true
    case PopNext(h) => h in s.next && h != NULL
    case PopSwap(h, _) => h in s.next && h != NULL
    case PopClear(h) => (t, h) in s.held
    case PushLoad(p) => (t, p) in s.held
    case PushLink(p, _) => (t, p) in s.held
    case PushSwap(p, h) => (t, p) in s.held && p in s.next && s.next[p] == h
  }

  ghost predicate Inv(s: State) {
    Exclusive(s) && forall t :: t in s.threads ==> LocalOk(s, t)
  }

  /** The exchange of `popFree` succeeds although the link it read is no longer the head's. */
  predicate StalePop(s: State, s': State, t: nat)
    requires t in s.threads
  {
    && s.threads[t].PopSwap? && Pops(s, s', t, s.threads[t].h, s.threads[t].n)
    && s.threads[t].h in s.next && s.next[s.threads[t].h] != s.threads[t].n
  }

  // ---- Preservation

  lemma HeadIsFirst(next: map<Ptr, Ptr>, a: Ptr, b: Ptr, list: seq<Ptr>)
    requires Chain(next, a, list) && Chain(next, b, list)
    ensures a == b
  {
  }

  /** A pop takes the head off the list if and only if the link it stores is the head's. */
  lemma PopIsRightIff(s: State, s': State, t: nat, h: Ptr, n: Ptr)
    requires Inv(s) && Pops(s, s', t, h, n) && h != NULL && h in s.next
    ensures Exclusive(s') <==> s.next[h] == n
  {
    assert s.free != [] && s.free[0] == h && s.free == [h] + s.free[1..];
    var rest := s.free[1..];
    assert Chain(s.next, s.next[h], rest) && h !in rest && Distinct(rest);
    if s.next[h] == n {
      assert h in s.free;
      assert forall x :: x in s.held ==> x.1 != h && x.1 !in rest;
    } else if Exclusive(s') {
      HeadIsFirst(s.next, n, s.next[h], rest);
      assert false;
    }
  }

  /** Writing the link of a slot the thread holds does not touch the list. */
  lemma LinkKeeps(s: State, s': State, t: nat, p: Ptr, v: Ptr, to: Thread)
    requires Inv(s) && t in s.threads && (t, p) in s.held
    requires s' == s.(next := s.next[p := v], threads := s.threads[t := to])
    ensures Exclusive(s') && forall u :: u in s.threads && u != t ==> LocalOk(s', u)
  {
    ChainFrame(s.next, s'.next, s.head, s.free);
    forall u | u in s.threads && u != t ensures LocalOk(s', u) {
      assert LocalOk(s, u);
      assert forall q :: (u, q) in s.held ==> q != p;
    }
  }

  lemma PushIsRight(s: State, s': State, t: nat, p: Ptr, h: Ptr)
    requires Inv(s) && t in s.threads && s.threads[t] == PushSwap(p, h) && Pushes(s, s', t, p, h)
    ensures Exclusive(s')
  {
    assert LocalOk(s, t);
    assert s'.free[1..] == s.free;
  }

  /** The threads that do not move keep what they know when only the head and who holds `p` change. */
  lemma OthersStayOk(s: State, s': State, t: nat, p: Ptr)
    requires (forall u :: u in s.threads ==> LocalOk(s, u)) && s'.next == s.next && t in s.threads
    requires s'.threads.Keys == s.threads.Keys && forall u :: u in s.threads && u != t ==> s'.threads[u] == s.threads[u]
    requires forall x :: x in s.held && x != (t, p) ==> x in s'.held
    ensures forall u :: u in s'.threads && u != t ==> LocalOk(s', u)
  {
    forall u | u in s'.threads && u != t ensures LocalOk(s', u) {
      assert LocalOk(s, u);
    }
  }

  /**
    Atomic accesses keep every slot in one place if and only if no pop
    succeeds with a stale link; everything else about the two loops is right.
   */
  lemma StepKeepsInvIff(s: State, s': State, t: nat)
    requires Inv(s) && Advances(s, s', t)
    ensures Inv(s') <==> !StalePop(s, s', t)
  {
    assert LocalOk(s, t);
    match s.threads[t] {
      case PopSwap(h, n) =>
        OthersStayOk(s, s', t, NULL);
        if Pops(s, s', t, h, n) {
          hide Exclusive;
          PopIsRightIff(s, s', t, h, n);
        } else {
          HeadIsLinked(s);
        }
      case PopClear(h) => LinkKeeps(s, s', t, h, NULL, Idle);
      case PushLink(p, h) => LinkKeeps(s, s', t, p, h, PushSwap(p, h));
      case PushSwap(p, h) =>
        OthersStayOk(s, s', t, p);
        if Pushes(s, s', t, p, h) {
          hide Exclusive;
          PushIsRight(s, s', t, p, h);
        }
      case _ =>
        HeadIsLinked(s);
        OthersStayOk(s, s', t, NULL);
    }
  }

  lemma HeadIsLinked(s: State)
    requires Exclusive(s)
    ensures s.head != NULL ==> s.head in s.next
  {
  }

  // ---- A thread left to itself

  /** Four steps of thread `t` and of no other, which keep every slot in one place. */
  ghost predicate FourSteps(trace: seq<State>, t: nat) {
    && |trace| == 5 && Inv(trace[0]) && Inv(trace[4])
    && Advances(trace[0], trace[1], t) && Advances(trace[1], trace[2], t)
    && Advances(trace[2], trace[3], t) && Advances(trace[3], trace[4], t)
  }

  /** A thread left to itself can pop the first free slot in four steps, wherever the others have stopped. */
  lemma LonePop(s: State, t: nat) returns (trace: seq<State>)
    requires t in s.threads && s.threads[t] == Idle && s.free != [] && Inv(s)
    ensures FourSteps(trace, t) && trace[0] == s
    ensures trace[4].free == s.free[1..] && trace[4].held == s.held + {(t, s.free[0])}
    ensures trace[4].threads == s.threads && trace[4].next == s.next[s.free[0] := NULL]
  {
    HeadIsLinked(s);
    assert s.head == s.free[0] != NULL;
    var h := s.head;
    var n := s.next[h];
    var s1 := s.(threads := s.threads[t := PopNext(h)]);
    var s2 := s.(threads := s.threads[t := PopSwap(h, n)]);
    var s3 := s.(head := n, threads := s.threads[t := PopClear(h)], held := s.held + {(t, h)}, free := s.free[1..]);
    var s4 := s3.(next := s.next[h := NULL], threads := s.threads);
    assert s1 == s.(threads := s1.threads) && s2.threads == s1.threads[t := PopSwap(h, n)];
    assert s3.threads == s2.threads[t := PopClear(h)] && s4.threads == s3.threads[t := Idle];
    hide Exclusive, Inv, LocalOk;
    StepKeepsInvIff(s, s1, t);
    StepKeepsInvIff(s1, s2, t);
    StepKeepsInvIff(s2, s3, t);
    StepKeepsInvIff(s3, s4, t);
    trace := [s, s1, s2, s3, s4];
  }

  /** And it can push a slot it holds, so that this slot is the next to be popped. */
  lemma LonePush(s: State, t: nat, p: Ptr) returns (trace: seq<State>)
    requires t in s.threads && s.threads[t] == Idle && (t, p) in s.held && Inv(s)
    ensures FourSteps(trace, t) && trace[0] == s
    ensures trace[4].free == [p] + s.free && trace[4].held == s.held - {(t, p)}
    ensures trace[4].threads == s.threads && trace[4].next == s.next[p := s.head] && trace[4].head == p
  {
    var s1 := s.(threads := s.threads[t := PushLoad(p)]);
    var s2 := s.(threads := s.threads[t := PushLink(p, s.head)]);
    var s3 := s.(next := s.next[p := s.head], threads := s.threads[t := PushSwap(p, s.head)]);
    var s4 := s3.(head := p, threads := s.threads, held := s.held - {(t, p)}, free := [p] + s.free);
    assert s2.threads == s1.threads[t := PushLink(p, s.head)];
    assert s3.threads == s2.threads[t := PushSwap(p, s.head)] && s4.threads == s3.threads[t := Idle];
    hide Exclusive, Inv, LocalOk;
    StepKeepsInvIff(s, s1, t);
    StepKeepsInvIff(s1, s2, t);
    StepKeepsInvIff(s2, s3, t);
    StepKeepsInvIff(s3, s4, t);
    trace := [s, s1, s2, s3, s4];
  }

  /**
    An exchange can always fail, for a reason or spuriously; the thread then
    starts again from the head as it is, and nothing shared has changed. In
    every other position it has a step too, so no thread ever waits.
   */
  lemma ThreadGetsOn(s: State, t: nat) returns (s': State)
    requires t in s.threads && Inv(s)
    ensures Advances(s, s', t)
    ensures s.threads[t].PopSwap? || s.threads[t].PushSwap? ==> s' == s.(threads := s'.threads) && t in s'.threads
    ensures s.threads[t].PopSwap? ==> s'.threads[t] == if s.head == NULL then Idle else PopNext(s.head)
    ensures s.threads[t].PushSwap? ==> s'.threads[t] == PushLink(s.threads[t].p, s.head)
  {
    assert LocalOk(s, t);
    hide Exclusive;
    var loaded := s.(threads := s.threads[t := if s.head == NULL then Idle else PopNext(s.head)]);
    match s.threads[t]
    case Idle => s' := loaded;
    case PopNext(h) => s' := s.(threads := s.threads[t := PopSwap(h, s.next[h])]);
    case PopSwap(_, _) => s' := loaded;
    case PopClear(h) => s' := s.(next := s.next[h := NULL], threads := s.threads[t := Idle]);
    case PushLoad(p) => s' := s.(threads := s.threads[t := PushLink(p, s.head)]);
    case PushLink(p, h) => s' := s.(next := s.next[p := h], threads := s.threads[t := PushSwap(p, h)]);
    case PushSwap(p, _) => s' := s.(threads := s.threads[t := PushLink(p, s.head)]);
  }

  // ---- The race

  /** No thread holds two slots, as no call of the table does. */
  ghost predicate OneEach(s: State) {
    forall x, y :: x in s.held && y in s.held && x.0 == y.0 ==> x == y
  }

  /**
    Slots 1 and 2 are free. Thread 0 reads the head and its link. Thread 1 takes
    slot 1 for a candidate, thread 2 takes slot 2 and puts it to use, and thread
    1, whose candidate was not needed, gives slot 1 back. Thread 0's exchange
    succeeds and makes slot 2 the head, and thread 1 takes it in its next call.
   */
  const FIRST_THREAD: seq<Thread> := [
    Idle, PopNext(1), PopSwap(1, 2), PopSwap(1, 2), PopSwap(1, 2), PopSwap(1, 2), PopSwap(1, 2), PopSwap(1, 2),
    PopSwap(1, 2), PopSwap(1, 2), PopSwap(1, 2), PopSwap(1, 2), PopSwap(1, 2), PopSwap(1, 2), PopSwap(1, 2),
    PopClear(1), Idle, Idle, Idle, Idle
  ]

  const SECOND_THREAD: seq<Thread> := [
    Idle, Idle, Idle, PopNext(1), PopSwap(1, 2), PopClear(1), Idle, Idle, Idle, Idle, Idle,
    PushLoad(1), PushLink(1, NULL), PushSwap(1, NULL), Idle, Idle, Idle, PopNext(2), PopSwap(2, NULL), PopClear(2)
  ]

  const THIRD_THREAD: seq<Thread> := [
    Idle, Idle, Idle, Idle, Idle, Idle, Idle, PopNext(2), PopSwap(2, NULL), PopClear(2), Idle, Idle, Idle, Idle, Idle,
    Idle, Idle, Idle, Idle, Idle
  ]

  const HEADS: seq<Ptr> := [1, 1, 1, 1, 1, 2, 2, 2, 2, NULL, NULL, NULL, NULL, NULL, 1, 2, 2, 2, 2, NULL]

  function Held(i: nat): set<(nat, Ptr)> {
    if i < 5 then {}
    else if i < 9 then {(1, 1)}
    else if i < 14 then {(1, 1), (2, 2)}
    else if i < 15 then {(2, 2)}
    else if i < 19 then {(2, 2), (0, 1)}
    else {(2, 2), (0, 1), (1, 2)}
  }

  function Free(i: nat): seq<Ptr> {
    if i < 5 then [1, 2] else if i < 9 then [2] else if i == 14 then [1] else []
  }

  function Stolen(i: nat): State
    requires i < 20
  {
    State(HEADS[i], map[1 := if i < 6 then 2 else NULL, 2 := NULL],
      map[0 := FIRST_THREAD[i], 1 := SECOND_THREAD[i], 2 := THIRD_THREAD[i]], Held(i), Free(i))
  }

  /** Whose step it is. */
  function Mover(i: nat): nat {
    if i < 2 || 14 <= i < 16 then 0 else if 6 <= i < 10 then 2 else 1
  }

  lemma FirstReads(i: nat)
    requires i < 2
    ensures Advances(Stolen(i), Stolen(i + 1), Mover(i))
  {
  }

  lemma SecondTakes(i: nat)
    requires 2 <= i < 6
    ensures Advances(Stolen(i), Stolen(i + 1), Mover(i))
  {
    assert [1, 2][1..] == [2];
    assert map[1 := 2, 2 := NULL][1 := NULL] == map[1 := NULL, 2 := NULL];
  }

  lemma ThirdTakes(i: nat)
    requires 6 <= i < 10
    ensures Advances(Stolen(i), Stolen(i + 1), Mover(i))
  {
    assert [2][1..] == [];
  }

  lemma SecondGivesBack(i: nat)
    requires 10 <= i < 14
    ensures Advances(Stolen(i), Stolen(i + 1), Mover(i))
  {
    assert {(1, 1), (2, 2)} - {(1, 1)} == {(2, 2)};
  }

  lemma FirstExchanges(i: nat)
    requires 14 <= i < 16
    ensures Advances(Stolen(i), Stolen(i + 1), Mover(i))
  {
    assert [1][1..] == [];
  }

  lemma SecondTakesAgain(i: nat)
    requires 16 <= i < 19
    ensures Advances(Stolen(i), Stolen(i + 1), Mover(i))
  {
  }

  /** The code reaches a state in which two threads hold one slot. */
  lemma SlotIsStolen() returns (trace: seq<State>)
    ensures |trace| == 20 && Inv(trace[0]) && (2, 2) in trace[19].held && (1, 2) in trace[19].held
    ensures forall i :: 0 <= i < 19 ==> Advances(trace[i], trace[i + 1], Mover(i))
    ensures forall i :: 0 <= i < 20 ==> OneEach(trace[i])
    ensures 0 in trace[14].threads && StalePop(trace[14], trace[15], 0)
  {
    trace := seq(20, i requires 0 <= i < 20 => Stolen(i));
    StartIsRight();
    StaleAtLast();
    EndsTwice();
    hide Inv, StalePop, Advances, OneEach, FIRST_THREAD, SECOND_THREAD, THIRD_THREAD, HEADS, Stolen;
    forall i | 0 <= i < 19 ensures Advances(trace[i], trace[i + 1], Mover(i)) {
      if i < 2 {
        FirstReads(i);
      } else if i < 6 {
        SecondTakes(i);
      } else if i < 10 {
        ThirdTakes(i);
      } else if i < 14 {
        SecondGivesBack(i);
      } else if i < 16 {
        FirstExchanges(i);
      } else {
        SecondTakesAgain(i);
      }
    }
    forall i | 0 <= i < 20 ensures OneEach(trace[i]) {
      EachHoldsOne(i);
    }
  }

  lemma EachHoldsOne(i: nat)
    requires i < 20
    ensures OneEach(Stolen(i))
  {
  }

  lemma EndsTwice()
    ensures (2, 2) in Stolen(19).held && (1, 2) in Stolen(19).held
  {
  }

  lemma StaleAtLast()
    ensures 0 in Stolen(14).threads && StalePop(Stolen(14), Stolen(15), 0)
  {
    assert [1][1..] == [];
  }

  lemma StartIsRight()
    ensures Inv(Stolen(0))
  {
    var s := Stolen(0);
    assert s.free[1..] == [2] && s.free[1..][1..] == [];
    assert Chain(s.next, NULL, []) && Chain(s.next, 2, [2]);
  }
}
