/**
  The reader/writer protocol of one entry of src/LockFreeCache.h, interleaved:
  any number of threads look up and insert, one shared access per step.
 */
module CacheProtocol {
  import opened Nodes
  import opened OperationCache

  /** The arguments of a lookup. */
  datatype Query = Query(left: Ptr, right: Ptr, op: nat)

  /** The arguments of an insertion. */
  datatype Fact = Fact(node: Ptr, left: Ptr, right: Ptr, op: nat)

  /** Where a thread is, with its local variables. */
  datatype Thread =
    | Idle
    | Peek(q: Query)                       // reads `node` without acquiring
    | Acquire(q: Query, uc: int)           // compare-exchange expecting `uc`
    | ReadOp(q: Query)                     // inside, as a reader
    | ReadLeft(q: Query)
    | ReadRight(q: Query, seenLeft: Ptr)
    | ReadNode(q: Query)
    | Release(q: Query, out: Ptr)
    | Found(q: Query, out: Ptr)            // the lookup has returned
    | Lock(f: Fact)                        // weak compare-exchange of 0 with -1
    | WriteNode(f: Fact)                   // inside, as the writer
    | WriteLeft(f: Fact)
    | WriteRight(f: Fact)
    | WriteOp(f: Fact)
    | Unlock(f: Fact)
    | ClearNode                            // the stores of `invalidateAll`, which acquires nothing
    | ClearLeft
    | ClearRight
    | ClearCount

  /** Inside the entry as a reader, as the writer, or not inside. */
  datatype Role = Outside | Reader | Writer

  function RoleOf(t: Thread): Role {
    match t
    case ReadOp(_) => Reader
    case ReadLeft(_) => Reader
    case ReadRight(_, _) => Reader
    case ReadNode(_) => Reader
    case Release(_, _) => Reader
    case WriteNode(_) => Writer
    case WriteLeft(_) => Writer
    case WriteRight(_) => Writer
    case WriteOp(_) => Writer
    case Unlock(_) => Writer
    case _ => Outside
  }

  /**
    One entry and its threads. The protocol's count is `entry.useCount`;
    `written` are the insertions completed so far, in order.
   */
  datatype State = State(entry: Entry, threads: map<nat, Thread>, written: seq<Fact>)

  /** The operators always have a left operand, and a right one unless the code is that of `bddNot`. */
  predicate Operands(left: Ptr, right: Ptr, op: nat) {
    left != NULL && (right == NULL <==> op == 2)
  }

  predicate Asks(q: Query) {
    Operands(q.left, q.right, q.op)
  }

  predicate Tells(f: Fact) {
    Operands(f.left, f.right, f.op)
  }

  predicate Agrees(f: Fact, q: Query) {
    && f.op == q.op
    && (|| (f.left == q.left && f.right == q.right)
        || (IsCommutative(q.op) && f.left == q.right && f.right == q.left))
  }

  // ---- Steps

  ghost predicate Init(s: State) {
    s.entry == EMPTY_ENTRY && s.written == [] && forall t :: t in s.threads ==> s.threads[t] == Idle
  }

  /** The operands are in the fields, swapped or not as the operator allows. */
  predicate Fits(q: Query, left: Ptr, right: Ptr) {
    (left == q.left && right == q.right) || (IsCommutative(q.op) && left == q.right && right == q.left)
  }

  /** One step of one thread, from `from` to `to`; the entry was `e` and is `e'`. */
  predicate Acts(from: Thread, to: Thread, e: Entry, e': Entry) {
    match from
    case Idle => e' == e && ((to.Peek? && Asks(to.q)) || (to.Lock? && Tells(to.f)) || to == ClearNode)
    case Peek(q) => e' == e && to == if e.node == NULL then Found(q, NULL) else Acquire(q, 0)
    case Acquire(q, uc) =>
      if e.useCount == uc then to == ReadOp(q) && e' == e.(useCount := uc + 1)
      else e' == e && to == if e.useCount == -1 then Found(q, NULL) else Acquire(q, e.useCount)
    case ReadOp(q) => e' == e && to == if e.op == q.op then ReadLeft(q) else Release(q, NULL)
    case ReadLeft(q) => e' == e && to == ReadRight(q, e.left)
    case ReadRight(q, seenLeft) => e' == e && to == if Fits(q, seenLeft, e.right) then ReadNode(q) else Release(q, NULL)
    case ReadNode(q) => e' == e && to == Release(q, e.node)
    case Release(q, out) => to == Found(q, out) && e' == e.(useCount := e.useCount - 1)
    case Found(_, _) => e' == e && to == Idle
    case Lock(f) =>
      || (e' == e && to == Idle)   // busy, or a spurious failure
      || (e.useCount == 0 && to == WriteNode(f) && e' == e.(useCount := -1))
    case WriteNode(f) => to == WriteLeft(f) && e' == e.(node := f.node)
    case WriteLeft(f) => to == WriteRight(f) && e' == e.(left := f.left)
    case WriteRight(f) => to == WriteOp(f) && e' == e.(right := f.right)
    case WriteOp(f) => to == Unlock(f) && e' == e.(op := f.op)
    case Unlock(f) => to == Idle && e' == e.(useCount := 0)
    case ClearNode => to == ClearLeft && e' == e.(node := NULL)
    case ClearLeft => to == ClearRight && e' == e.(left := NULL)
    case ClearRight => to == ClearCount && e' == e.(right := NULL)
    case ClearCount => to == Idle && e' == e.(useCount := 0)
  }

  /** What a thread's step adds to the completed insertions. */
  function Log(from: Thread): seq<Fact> {
    if from.Unlock? then [from.f] else []
  }

  /** Thread `t` goes one step on, and no other. */
  ghost predicate Advances(s: State, s': State, t: nat) {
    && t in s.threads && t in s'.threads && s'.threads == s.threads[t := s'.threads[t]]
    && Acts(s.threads[t], s'.threads[t], s.entry, s'.entry) && s'.written == s.written + Log(s.threads[t])
  }

  ghost predicate Next(s: State, s': State) {
    exists t :: Advances(s, s', t)
  }

  ghost predicate NobodyInside(s: State) {
    forall t :: t in s.threads ==> RoleOf(s.threads[t]) == Outside
  }

  /** `invalidateAll` resets the count of an entry that somebody has acquired. */
  ghost predicate ResetsInUse(s: State, t: nat)
    requires t in s.threads
  {
    s.threads[t].ClearCount? && !NobodyInside(s)
  }

  ghost predicate NextInTurn(s: State, s': State) {
    exists t :: Advances(s, s', t) && !ResetsInUse(s, t)
  }

  // ---- The invariant

  /** The threads with a role. */
  ghost function With(threads: map<nat, Thread>, role: Role): set<nat> {
    set t | t in threads && RoleOf(threads[t]) == role
  }

  /** -1 exactly when one writer and no reader is inside, else the number of readers. */
  ghost predicate RightCount(threads: map<nat, Thread>, uc: int) {
    if With(threads, Writer) == {} then uc == |With(threads, Reader)|
    else uc == -1 && With(threads, Reader) == {} && |With(threads, Writer)| == 1
  }

  ghost predicate Counted(s: State) {
    RightCount(s.threads, s.entry.useCount)
  }

  /** A field holds what was stored, unless it has been cleared since. */
  predicate Holds(field: Ptr, stored: Ptr) {
    field == stored || field == NULL
  }

  predicate Covers(e: Entry, f: Fact) {
    Holds(e.node, f.node) && Holds(e.left, f.left) && Holds(e.right, f.right) && e.op == f.op
  }

  /** The last completed insertion is what the entry says, as far as it has not been cleared. */
  predicate SaysLast(e: Entry, written: seq<Fact>) {
    e.node != NULL ==> written != [] && Covers(e, written[|written| - 1])
  }

  predicate Agreed(written: seq<Fact>, q: Query, out: Ptr) {
    exists f :: f in written && f.node == out && Agrees(f, q)
  }

  /** What a thread has seen or written so far is what the entry holds, or was cleared. */
  predicate LocalOk(th: Thread, e: Entry, written: seq<Fact>) {
    match th
    case Peek(q) => Asks(q)
    case Acquire(q, uc) => Asks(q) && uc >= 0
    case ReadOp(q) => Asks(q)
    case ReadLeft(q) => Asks(q) && e.op == q.op
    case ReadRight(q, seenLeft) =>
      Asks(q) && e.op == q.op && (e.node != NULL ==> written != [] && Holds(seenLeft, written[|written| - 1].left))
    case ReadNode(q) => Asks(q) && (e.node != NULL ==> written != [] && Agrees(written[|written| - 1], q))
    case Release(q, out) => out != NULL ==> Agreed(written, q, out)
    case Found(q, out) => out != NULL ==> Agreed(written, q, out)
    case Lock(f) => Tells(f)
    case WriteNode(f) => Tells(f)
    case WriteLeft(f) => Tells(f) && Holds(e.node, f.node)
    case WriteRight(f) => Tells(f) && Holds(e.node, f.node) && Holds(e.left, f.left)
    case WriteOp(f) => Tells(f) && Holds(e.node, f.node) && Holds(e.left, f.left) && Holds(e.right, f.right)
    case Unlock(f) => Tells(f) && Covers(e, f)
    case _ => true
  }

  ghost predicate Inv(s: State) {
    && Counted(s)
    && (forall t :: t in s.threads ==> LocalOk(s.threads[t], s.entry, s.written))
    && (forall f :: f in s.written ==> Tells(f))
    && (With(s.threads, Writer) == {} ==> SaysLast(s.entry, s.written))
  }

  lemma WithAfter(threads: map<nat, Thread>, t: nat, to: Thread, role: Role)
    requires t in threads
    ensures With(threads[t := to], role) == With(threads, role) - {t} + if RoleOf(to) == role then {t} else {}
  {
    hide RoleOf;
  }

  lemma SetSizes(before: set<nat>, t: nat)
    ensures |before| == |before - {t}| + if t in before then 1 else 0
    ensures |before - {t} + {t}| == |before - {t}| + 1
    ensures |before - {t} + {}| == |before - {t}|
  {
    assert before == (before - {t}) + if t in before then {t} else {};
  }

  /** How a step changes a thread's role, and the count. */
  predicate Crossing(was: Role, to: Role, uc: int, uc': int) {
    || (was == to && uc' == uc)
    || (was == Outside && to == Reader && uc >= 0 && uc' == uc + 1)
    || (was == Reader && to == Outside && uc' == uc - 1)
    || (was == Outside && to == Writer && uc == 0 && uc' == -1)
    || (was == Writer && to == Outside && uc' == 0)
  }

  lemma StepCrosses(from: Thread, to: Thread, e: Entry, e': Entry)
    requires Acts(from, to, e, e') && (from.Acquire? ==> from.uc >= 0)
    requires from.ClearCount? ==> e.useCount == 0
    ensures Crossing(RoleOf(from), RoleOf(to), e.useCount, e'.useCount)
  {
  }

  lemma NobodyCounted(s: State)
    requires Counted(s)
    ensures NobodyInside(s) <==> With(s.threads, Reader) == {} && With(s.threads, Writer) == {}
    ensures NobodyInside(s) <==> s.entry.useCount == 0
  {
    hide RoleOf;
    if !NobodyInside(s) {
      var t :| t in s.threads && RoleOf(s.threads[t]) != Outside;
      assert t in With(s.threads, RoleOf(s.threads[t]));
    }
  }

  /** The count stays right through every step but a reset while somebody is inside. */
  lemma StepKeepsCount(s: State, s': State, t: nat)
    requires Counted(s) && Advances(s, s', t) && !ResetsInUse(s, t)
    requires LocalOk(s.threads[t], s.entry, s.written)
    ensures Counted(s')
  {
    hide Acts, RoleOf;
    NobodyCounted(s);
    StepCrosses(s.threads[t], s'.threads[t], s.entry, s'.entry);
    CrossingCounts(s.threads, t, s'.threads[t], s.entry.useCount, s'.entry.useCount);
  }

  lemma CrossingCounts(threads: map<nat, Thread>, t: nat, to: Thread, uc: int, uc': int)
    requires t in threads && RightCount(threads, uc) && Crossing(RoleOf(threads[t]), RoleOf(to), uc, uc')
    ensures RightCount(threads[t := to], uc')
  {
    hide RoleOf;
    WithAfter(threads, t, to, Reader);
    WithAfter(threads, t, to, Writer);
    SetSizes(With(threads, Reader), t);
    SetSizes(With(threads, Writer), t);
    assert forall role :: t in With(threads, role) <==> RoleOf(threads[t]) == role;
    hide With;
    assert |With(threads, Writer)| == 0 <==> With(threads, Writer) == {};
    assert |With(threads, Reader)| == 0 <==> With(threads, Reader) == {};
  }

  /** And a reset while somebody is inside breaks it. */
  lemma ResetBreaksCount(s: State, s': State, t: nat)
    requires Advances(s, s', t) && ResetsInUse(s, t)
    ensures !Counted(s')
  {
    var u :| u in s.threads && RoleOf(s.threads[u]) != Outside;
    assert u != t;
    hide RoleOf;
    assert u in With(s'.threads, RoleOf(s.threads[u]));
  }

  /** What a step leaves to the others: only the writer stores anything but null. */
  predicate LeavesOthers(e: Entry, e': Entry) {
    Holds(e'.node, e.node) && Holds(e'.left, e.left) && Holds(e'.right, e.right) && e'.op == e.op
  }

  lemma StepFrame(from: Thread, to: Thread, e: Entry, e': Entry)
    requires Acts(from, to, e, e')
    ensures RoleOf(from) != Writer ==> LeavesOthers(e, e') && Log(from) == []
  {
  }

  /** Cleared fields never match, because queries and insertions come from the operators. */
  lemma RightFields(q: Query, last: Fact, left: Ptr, right: Ptr)
    requires Asks(q) && Tells(last) && last.op == q.op && Holds(left, last.left) && Holds(right, last.right)
    requires Fits(q, left, right)
    ensures Agrees(last, q)
  {
  }

  /** The thread that moved still agrees with the entry. */
  lemma MoverStaysOk(from: Thread, to: Thread, e: Entry, e': Entry, written: seq<Fact>)
    requires Acts(from, to, e, e') && LocalOk(from, e, written) && e.useCount >= -1
    requires forall f :: f in written ==> Tells(f)
    requires RoleOf(from) == Reader ==> SaysLast(e, written)
    ensures LocalOk(to, e', written + Log(from))
  {
    match from
    case ReadRight(q, seenLeft) =>
      if e.node != NULL && Fits(q, seenLeft, e.right) {
        RightFields(q, written[|written| - 1], seenLeft, e.right);
      }
    case ReadNode(q) =>
      if e.node != NULL {
        assert written[|written| - 1] in written;
      }
    case _ =>
  }

  /** So does every thread that did not move. */
  lemma OtherStaysOk(th: Thread, e: Entry, e': Entry, written: seq<Fact>, more: seq<Fact>)
    requires LocalOk(th, e, written)
    requires RoleOf(th) == Outside || (LeavesOthers(e, e') && more == [])
    ensures LocalOk(th, e', written + more)
  {
    hide Agrees;
    assert forall f :: f in written ==> f in written + more;
  }

  lemma EntryStaysSaid(from: Thread, to: Thread, e: Entry, e': Entry, written: seq<Fact>)
    requires Acts(from, to, e, e') && LocalOk(from, e, written)
    requires RoleOf(from) != Writer ==> SaysLast(e, written)
    requires RoleOf(to) != Writer
    ensures SaysLast(e', written + Log(from))
  {
    StepFrame(from, to, e, e');
  }

  /** While a writer is inside nobody else is; without one the count is the number of readers. */
  lemma RolesExclude(s: State, t: nat)
    requires Counted(s) && t in s.threads
    ensures RoleOf(s.threads[t]) == Writer ==> forall u :: u in s.threads && u != t ==> RoleOf(s.threads[u]) == Outside
    ensures RoleOf(s.threads[t]) == Reader ==> With(s.threads, Writer) == {}
    ensures With(s.threads, Writer) != {} && RoleOf(s.threads[t]) != Writer ==> RoleOf(s.threads[t]) == Outside
    ensures s.entry.useCount >= -1
  {
    hide RoleOf;
    if t in With(s.threads, Writer) {
      assert |With(s.threads, Writer) - {t}| == 0;
      forall u | u in s.threads && u != t ensures RoleOf(s.threads[u]) == Outside {
        assert u !in With(s.threads, Reader);
        assert u !in With(s.threads, Writer) - {t};
      }
    }
    assert t in With(s.threads, Reader) <==> RoleOf(s.threads[t]) == Reader;
    assert t in With(s.threads, Writer) <==> RoleOf(s.threads[t]) == Writer;
  }

  /** Every other step of every thread keeps the invariant. */
  lemma StepKeepsInv(s: State, s': State, t: nat)
    requires Inv(s) && Advances(s, s', t) && !ResetsInUse(s, t)
    ensures Inv(s')
  {
    hide Acts, LocalOk, RoleOf, RightCount, SaysLast, Tells, With;
    var from, to, e, e', written := s.threads[t], s'.threads[t], s.entry, s'.entry, s.written;
    assert LocalOk(from, e, written);
    StepKeepsCount(s, s', t);
    StepFrame(from, to, e, e');
    RolesExclude(s, t);
    assert Log(from) != [] ==> from.Unlock?;
    assert from.Unlock? ==> Tells(from.f) by { UnlockTells(from, e, written); }
    MoverStaysOk(from, to, e, e', written);
    forall u | u in s'.threads ensures LocalOk(s'.threads[u], e', s'.written) {
      if u != t {
        assert LocalOk(s.threads[u], e, written);
        OtherStaysOk(s.threads[u], e, e', written, Log(from));
      }
    }
    if With(s'.threads, Writer) == {} {
      OnlyWriter(s, s', t);
      EntryStaysSaid(from, to, e, e', written);
    }
  }

  lemma UnlockTells(from: Thread, e: Entry, written: seq<Fact>)
    requires LocalOk(from, e, written)
    ensures from.Unlock? ==> Tells(from.f)
  {
  }

  lemma OnlyWriter(s: State, s': State, t: nat)
    requires t in s.threads && t in s'.threads && s'.threads == s.threads[t := s'.threads[t]]
    requires With(s'.threads, Writer) == {}
    ensures RoleOf(s'.threads[t]) != Writer
    ensures RoleOf(s.threads[t]) != Writer ==> With(s.threads, Writer) == {}
  {
    hide RoleOf;
    assert t !in With(s'.threads, Writer);
    forall u | u in s.threads && u != t ensures u !in With(s.threads, Writer) {
      assert u !in With(s'.threads, Writer);
    }
  }

  /**
    The exact condition: a step of the code, the four stores of an invalidation
    included, keeps the protocol if and only if it is not the store that resets
    the count while somebody is inside.
   */
  lemma StepKeepsInvIff(s: State, s': State, t: nat)
    requires Inv(s) && Advances(s, s', t)
    ensures Inv(s') <==> !ResetsInUse(s, t)
  {
    hide Acts, LocalOk, RightCount, ResetsInUse;
    if ResetsInUse(s, t) {
      ResetBreaksCount(s, s', t);
    } else {
      StepKeepsInv(s, s', t);
    }
  }

  // ---- Every interleaving

  /** Any interleaving of lookups, insertions and invalidations. */
  ghost predicate IsRun(trace: seq<State>) {
    |trace| > 0 && Init(trace[0]) && forall i :: 0 <= i < |trace| - 1 ==> Follows(trace, i)
  }

  ghost predicate Follows(trace: seq<State>, i: nat)
    requires i + 1 < |trace|
  {
    Next(trace[i], trace[i + 1])
  }

  /** In which no count is reset while somebody is inside. */
  ghost predicate IsBehaviour(trace: seq<State>) {
    |trace| > 0 && Init(trace[0]) && forall i :: 0 <= i < |trace| - 1 ==> FollowsInTurn(trace, i)
  }

  ghost predicate FollowsInTurn(trace: seq<State>, i: nat)
    requires i + 1 < |trace|
  {
    NextInTurn(trace[i], trace[i + 1])
  }

  lemma InitHasInv(s: State)
    requires Init(s)
    ensures Inv(s)
  {
    assert With(s.threads, Reader) == {} && With(s.threads, Writer) == {};
  }

  lemma NextKeepsInv(s: State, s': State)
    requires Inv(s) && NextInTurn(s, s')
    ensures Inv(s')
  {
    hide Inv, Acts;
    var t :| Advances(s, s', t) && !ResetsInUse(s, t);
    StepKeepsInv(s, s', t);
  }

  /** The protocol invariant holds in every state of every such interleaving. */
  lemma {:induction false} AlwaysInv(trace: seq<State>, i: nat)
    requires IsBehaviour(trace) && i < |trace|
    ensures Inv(trace[i])
  {
    hide Init, Inv, NextInTurn;
    if i == 0 {
      InitHasInv(trace[0]);
    } else {
      AlwaysInv(trace, i - 1);
      assert FollowsInTurn(trace, i - 1);
      NextKeepsInv(trace[i - 1], trace[i]);
    }
  }

  /** Mutual exclusion, read off the count. */
  lemma CountTellsWhoIsInside(trace: seq<State>, i: nat)
    requires IsBehaviour(trace) && i < |trace|
    ensures var s := trace[i];
      && (s.entry.useCount == -1 <==> |With(s.threads, Writer)| == 1 && With(s.threads, Reader) == {})
      && (s.entry.useCount != -1 ==> With(s.threads, Writer) == {} && s.entry.useCount == |With(s.threads, Reader)|)
  {
    AlwaysInv(trace, i);
  }

  /** A lookup that finds a node finds the node of one complete insertion of its operator and operands. */
  lemma LookupsAreWhole(trace: seq<State>, i: nat, t: nat)
    requires IsBehaviour(trace) && i < |trace| && t in trace[i].threads
    requires trace[i].threads[t].Found? && trace[i].threads[t].out != NULL
    ensures exists f :: f in trace[i].written && f.node == trace[i].threads[t].out && Agrees(f, trace[i].threads[t].q)
  {
    AlwaysInv(trace, i);
    assert LocalOk(trace[i].threads[t], trace[i].entry, trace[i].written);
  }

  /**
    So if every completed insertion is true, under any notion of truth that
    does not mind the order of commutative operands, every answer found is.
   */
  lemma FoundAnswersAreTrue(trace: seq<State>, i: nat, t: nat, truth: iset<Fact>)
    requires IsBehaviour(trace) && i < |trace| && t in trace[i].threads
    requires forall f :: f in trace[i].written ==> f in truth
    requires forall f: Fact :: f in truth && IsCommutative(f.op) ==> Fact(f.node, f.right, f.left, f.op) in truth
    requires trace[i].threads[t].Found? && trace[i].threads[t].out != NULL
    ensures var q := trace[i].threads[t].q; Fact(trace[i].threads[t].out, q.left, q.right, q.op) in truth
  {
    LookupsAreWhole(trace, i, t);
  }

  // ---- Invalidation with somebody inside

  const FIRST := Fact(1, 10, 11, 0)
  const SECOND := Fact(2, 20, 21, 0)
  const ASKED := Query(10, 11, 0)

  /**
    Thread 0 inserts an answer and looks it up. Before it acquires the entry,
    with nobody inside, thread 1 begins to clear it, and ends when thread 0 is
    about to read the node. Then thread 1 begins to insert another answer.
   */
  const LOOKING: seq<Thread> := [
    Idle, Lock(FIRST), WriteNode(FIRST), WriteLeft(FIRST), WriteRight(FIRST), WriteOp(FIRST), Unlock(FIRST), Idle,
    Peek(ASKED), Acquire(ASKED, 0), Acquire(ASKED, 0), Acquire(ASKED, 0),
    ReadOp(ASKED), ReadLeft(ASKED), ReadRight(ASKED, 10), ReadNode(ASKED),
    ReadNode(ASKED), ReadNode(ASKED), ReadNode(ASKED), ReadNode(ASKED), ReadNode(ASKED), ReadNode(ASKED),
    Release(ASKED, 2), Found(ASKED, 2)
  ]

  const CLEARING: seq<Thread> := [
    Idle, Idle, Idle, Idle, Idle, Idle, Idle, Idle, Idle, Idle,
    ClearNode, ClearLeft, ClearLeft, ClearLeft, ClearLeft, ClearLeft, ClearRight, ClearCount, Idle,
    Lock(SECOND), WriteNode(SECOND), WriteLeft(SECOND), WriteLeft(SECOND), WriteLeft(SECOND)
  ]

  const ENTRIES: seq<Entry> := [
    Entry(0, 0, 0, 0, 0), Entry(0, 0, 0, 0, 0), Entry(0, 0, 0, 0, -1), Entry(1, 0, 0, 0, -1), Entry(1, 10, 0, 0, -1),
    Entry(1, 10, 11, 0, -1), Entry(1, 10, 11, 0, -1), Entry(1, 10, 11, 0, 0), Entry(1, 10, 11, 0, 0),
    Entry(1, 10, 11, 0, 0), Entry(1, 10, 11, 0, 0), Entry(0, 10, 11, 0, 0), Entry(0, 10, 11, 0, 1),
    Entry(0, 10, 11, 0, 1), Entry(0, 10, 11, 0, 1), Entry(0, 10, 11, 0, 1), Entry(0, 0, 11, 0, 1),
    Entry(0, 0, 0, 0, 1), Entry(0, 0, 0, 0, 0), Entry(0, 0, 0, 0, 0), Entry(0, 0, 0, 0, -1),
    Entry(2, 0, 0, 0, -1), Entry(2, 0, 0, 0, -1), Entry(2, 0, 0, 0, -2)
  ]

  function Torn(i: nat): State
    requires i < 24
  {
    State(ENTRIES[i], map[0 := LOOKING[i], 1 := CLEARING[i]], if i < 7 then [] else [FIRST])
  }

  /** Thread 1 takes these steps. */
  predicate Clearing(i: nat) {
    9 <= i < 11 || 15 <= i < 21
  }

  lemma Insertion(i: nat)
    requires i < 7
    ensures Acts(LOOKING[i], LOOKING[i + 1], ENTRIES[i], ENTRIES[i + 1]) && CLEARING[i + 1] == CLEARING[i]
    ensures Log(LOOKING[i]) == if i == 6 then [FIRST] else []
  {
  }

  lemma Entering(i: nat)
    requires 7 <= i < 15 && !Clearing(i)
    ensures Acts(LOOKING[i], LOOKING[i + 1], ENTRIES[i], ENTRIES[i + 1]) && CLEARING[i + 1] == CLEARING[i]
    ensures Log(LOOKING[i]) == []
  {
  }

  lemma Leaving(i: nat)
    requires 21 <= i < 23
    ensures Acts(LOOKING[i], LOOKING[i + 1], ENTRIES[i], ENTRIES[i + 1]) && CLEARING[i + 1] == CLEARING[i]
    ensures Log(LOOKING[i]) == []
  {
  }

  lemma ClearingActs(i: nat)
    requires i < 23 && Clearing(i)
    ensures Acts(CLEARING[i], CLEARING[i + 1], ENTRIES[i], ENTRIES[i + 1]) && LOOKING[i + 1] == LOOKING[i]
    ensures Log(CLEARING[i]) == []
  {
  }

  lemma FirstMoves(e: Entry, e': Entry, a: Thread, a': Thread, b: Thread, written: seq<Fact>)
    requires Acts(a, a', e, e')
    ensures Advances(State(e, map[0 := a, 1 := b], written), State(e', map[0 := a', 1 := b], written + Log(a)), 0)
  {
    hide Acts, Log;
    assert map[0 := a, 1 := b][0 := a'] == map[0 := a', 1 := b];
  }

  lemma SecondMoves(e: Entry, e': Entry, a: Thread, b: Thread, b': Thread, written: seq<Fact>)
    requires Acts(b, b', e, e')
    ensures Advances(State(e, map[0 := a, 1 := b], written), State(e', map[0 := a, 1 := b'], written + Log(b)), 1)
  {
    hide Acts, Log;
  }

  lemma TornStep(i: nat)
    requires i < 23
    ensures Advances(Torn(i), Torn(i + 1), if Clearing(i) then 1 else 0)
  {
    var written := if i < 7 then [] else [FIRST];
    assert |LOOKING| == 24 && |CLEARING| == 24 && |ENTRIES| == 24;
    if Clearing(i) {
      ClearingActs(i);
      hide Acts, LOOKING, CLEARING, ENTRIES, Log, Advances;
      SecondMoves(ENTRIES[i], ENTRIES[i + 1], LOOKING[i], CLEARING[i], CLEARING[i + 1], written);
    } else {
      if i < 7 {
        Insertion(i);
      } else if i < 15 {
        Entering(i);
      } else {
        Leaving(i);
      }
      hide Acts, LOOKING, CLEARING, ENTRIES, Log, Advances;
      FirstMoves(ENTRIES[i], ENTRIES[i + 1], LOOKING[i], LOOKING[i + 1], CLEARING[i], written);
    }
  }

  /**
    It is not enough that nobody is inside when the invalidation begins: a
    lookup finds a node that no insertion, complete or not, stored under its
    operands.
   */
  lemma TornLookup() returns (trace: seq<State>)
    ensures IsRun(trace) && |trace| == 24
    ensures NobodyInside(trace[10]) && 1 in trace[10].threads && trace[10].threads[1] == ClearNode
    ensures 1 in trace[17].threads && ResetsInUse(trace[17], 1)
    ensures 0 in trace[23].threads && trace[23].threads[0] == Found(ASKED, 2)
    ensures forall f :: f in trace[23].written ==> !(f.node == 2 && Agrees(f, ASKED))
    ensures !Agrees(SECOND, ASKED)
  {
    hide Acts, Advances, LOOKING, CLEARING, ENTRIES, Agrees, ResetsInUse, NobodyInside, Torn;
    trace := seq(24, i requires 0 <= i < 24 => Torn(i));
    forall i | 0 <= i < 23 ensures Follows(trace, i) {
      TornStep(i);
      assert Advances(trace[i], trace[i + 1], if Clearing(i) then 1 else 0);
    }
    TornBegins();
    TornResets();
    TornEnds();
  }

  lemma TornBegins()
    ensures Init(Torn(0))
    ensures NobodyInside(Torn(10)) && 1 in Torn(10).threads && Torn(10).threads[1] == ClearNode
  {
  }

  lemma TornResets()
    ensures 1 in Torn(17).threads && ResetsInUse(Torn(17), 1)
  {
    assert RoleOf(Torn(17).threads[0]) == Reader;
  }

  lemma TornEnds()
    ensures 0 in Torn(23).threads && Torn(23).threads[0] == Found(ASKED, 2)
    ensures forall f :: f in Torn(23).written ==> !(f.node == 2 && Agrees(f, ASKED))
    ensures !Agrees(SECOND, ASKED)
  {
  }
}
