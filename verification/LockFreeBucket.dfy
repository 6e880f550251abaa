/**
  The lock-free find-or-insert list of src/LockFreeBucket.h, interleaved: any
  number of threads, one shared access per step, nothing removed meanwhile.
 */
module LockFreeBuckets {
  import opened Collections
  import opened Nodes

  datatype ListNode = ListNode(key: Cell, next: Ptr, inUse: bool)

  /** Where a call is, with its local variables. `node` is the caller's own new list node. */
  datatype Thread =
    | Idle
    | Load(key: Cell)
    | Scan(key: Cell, oldHead: Ptr, p: Ptr)
    | Swap(key: Cell, oldHead: Ptr, node: Ptr)
    | Rescan(key: Cell, oldHead: Ptr, node: Ptr, p: Ptr)
    | Done(key: Cell, result: Ptr)

  /**
    `listHead_`, the list nodes, and the threads. For the proof, `chain` keeps
    the linked nodes oldest first, and `returned` what calls have returned.
   */
  datatype State = State(head: Ptr, heap: map<Ptr, ListNode>, threads: map<nat, Thread>,
                         chain: seq<Ptr>, returned: set<(Cell, Ptr)>)

  // ---- Steps

  ghost predicate Init(s: State) {
    && s.head == NULL && s.chain == [] && s.returned == {} && s.heap == map[]
    && forall t :: t in s.threads ==> s.threads[t] == Idle
  }

  /** Thread `t` goes on to `to` and changes nothing shared. */
  predicate Local(s: State, s': State, t: nat, to: Thread) {
    s' == s.(threads := s.threads[t := to])
  }

  /** Thread `t` returns `r`. */
  predicate Returns(s: State, s': State, t: nat, key: Cell, r: Ptr) {
    s' == s.(threads := s.threads[t := Done(key, r)], returned := s.returned + {(key, r)})
  }

  /** A new list node in front of what the thread saw. */
  predicate Allocates(s: State, s': State, t: nat, key: Cell, oldHead: Ptr, n: Ptr) {
    && n !in s.heap && n != NULL
    && s' == s.(heap := s.heap[n := ListNode(key, oldHead, false)], threads := s.threads[t := Swap(key, oldHead, n)])
  }

  ghost predicate ThreadStep(s: State, s': State, t: nat)
    requires t in s.threads
  {
    match s.threads[t]
    case Idle => exists key :: Local(s, s', t, Load(key))
    case Load(key) => Local(s, s', t, Scan(key, s.head, s.head))
    case Scan(key, oldHead, p) =>
      if p == NULL then exists n :: Allocates(s, s', t, key, oldHead, n)
      else p in s.heap &&
           if s.heap[p].key == key then Returns(s, s', t, key, p)
           else Local(s, s', t, Scan(key, oldHead, s.heap[p].next))
    case Swap(key, oldHead, n) =>
      n in s.heap &&
      (|| // the exchange succeeds
          (s.head == s.heap[n].next &&
           s' == s.(head := n, chain := s.chain + [n], threads := s.threads[t := Done(key, n)],
                    returned := s.returned + {(key, n)}))
       || // it fails, spuriously or not, and stores the head it saw in the new node
          s' == s.(heap := s.heap[n := s.heap[n].(next := s.head)],
            threads := s.threads[t := Rescan(key, oldHead, n, s.head)]))
    case Rescan(key, oldHead, n, p) =>
      n in s.heap &&
      if p == oldHead then Local(s, s', t, Swap(key, s.heap[n].next, n))
      else p in s.heap &&
           if s.heap[p].key == key then Returns(s.(heap := s.heap - {n}), s', t, key, p)
           else Local(s, s', t, Rescan(key, oldHead, n, s.heap[p].next))
    case Done(_, _) => Local(s, s', t, Idle)
  }

  ghost predicate Advances(s: State, s': State, t: nat) {
    t in s.threads && ThreadStep(s, s', t)
  }

  ghost predicate Next(s: State, s': State) {
    exists t :: Advances(s, s', t)
  }

  // ---- The invariant

  /** How many nodes had been linked when `p` was the head; 0 for null. */
  function Pos(chain: seq<Ptr>, p: Ptr): (n: nat)
    ensures n <= |chain|
    ensures n == 0 <==> p !in chain
    ensures n > 0 ==> chain[n - 1] == p
  {
    if chain == [] then 0
    else if chain[|chain| - 1] == p then |chain|
    else Pos(chain[..|chain| - 1], p)
  }

  /** Null or a linked node. */
  predicate Linked(chain: seq<Ptr>, p: Ptr) {
    p == NULL || p in chain
  }

  /** The shared list: distinct nodes, each pointing at the one linked before it, with different keys. */
  ghost predicate ListOk(s: State) {
    && Distinct(s.chain) && NULL !in s.chain
    && (forall p :: p in s.chain ==> p in s.heap)
    && s.head == (if s.chain == [] then NULL else s.chain[|s.chain| - 1])
    && (s.chain != [] ==> s.heap[s.chain[0]].next == NULL)
    && (forall i, j :: 0 < i < |s.chain| && j == i - 1 ==> s.heap[s.chain[i]].next == s.chain[j])
    && (forall i, j :: 0 <= i < j < |s.chain| ==> s.heap[s.chain[i]].key != s.heap[s.chain[j]].key)
  }

  /** The nodes linked from the `lo`-th up to the `hi`-th do not have the key. */
  ghost predicate NoKey(s: State, key: Cell, lo: nat, hi: nat)
    requires hi <= |s.chain| && forall p :: p in s.chain ==> p in s.heap
  {
    forall i :: lo <= i < hi ==> s.heap[s.chain[i]].key != key
  }

  /** The node a thread has made and not linked. */
  function Own(t: Thread): Ptr {
    if t.Swap? || t.Rescan? then t.node else NULL
  }

  ghost predicate Private(s: State, key: Cell, n: Ptr) {
    n != NULL && n in s.heap && n !in s.chain && s.heap[n].key == key
  }

  ghost predicate LocalOk(s: State, t: nat)
    requires t in s.threads && ListOk(s)
  {
    match s.threads[t]
    case Idle => true
    case Load(_) => true
    case Scan(key, oldHead, p) =>
      && Linked(s.chain, oldHead) && Linked(s.chain, p)
      && NoKey(s, key, Pos(s.chain, p), Pos(s.chain, oldHead))
    case Swap(key, oldHead, n) =>
      && Private(s, key, n) && Linked(s.chain, oldHead) && s.heap[n].next == oldHead
      && NoKey(s, key, 0, Pos(s.chain, oldHead))
    case Rescan(key, oldHead, n, p) =>
      && Private(s, key, n) && Linked(s.chain, oldHead) && Linked(s.chain, p) && Linked(s.chain, s.heap[n].next)
      && Pos(s.chain, oldHead) <= Pos(s.chain, p)
      && NoKey(s, key, 0, Pos(s.chain, oldHead))
      && NoKey(s, key, Pos(s.chain, p), Pos(s.chain, s.heap[n].next))
    case Done(key, r) => (key, r) in s.returned
  }

  ghost predicate ReturnedOk(s: State) {
    forall q :: q in s.returned ==> q.1 in s.chain && q.1 in s.heap && s.heap[q.1].key == q.0
  }

  /** No two threads own one new node. */
  ghost predicate OwnersDiffer(s: State) {
    forall t, u :: t in s.threads && u in s.threads && t != u && Own(s.threads[t]) != NULL ==>
      Own(s.threads[t]) != Own(s.threads[u])
  }

  ghost predicate Inv(s: State) {
    && ListOk(s) && ReturnedOk(s) && OwnersDiffer(s)
    && (forall t :: t in s.threads ==> LocalOk(s, t))
  }

  // ---- Preservation

  lemma {:induction false} PosAppend(chain: seq<Ptr>, n: Ptr, p: Ptr)
    requires p != n
    ensures Pos(chain + [n], p) == Pos(chain, p)
  {
    assert (chain + [n])[..|chain|] == chain;
  }

  lemma {:induction false} PosOfIndex(chain: seq<Ptr>, i: nat)
    requires Distinct(chain) && i < |chain|
    ensures Pos(chain, chain[i]) == i + 1
  {
  }

  /** Following `next` from a linked node goes one place back. */
  lemma NextIsBefore(s: State, p: Ptr)
    requires ListOk(s) && p in s.chain
    ensures p in s.heap && Linked(s.chain, s.heap[p].next)
    ensures Pos(s.chain, s.heap[p].next) == Pos(s.chain, p) - 1
    ensures s.chain[Pos(s.chain, p) - 1] == p
  {
    var i := Pos(s.chain, p) - 1;
    if i > 0 {
      PosOfIndex(s.chain, i - 1);
      assert s.heap[s.chain[i]].next == s.chain[i - 1];
    }
  }

  lemma HeadIsLast(s: State)
    requires ListOk(s)
    ensures Linked(s.chain, s.head) && Pos(s.chain, s.head) == |s.chain|
  {
    if s.chain != [] {
      PosOfIndex(s.chain, |s.chain| - 1);
    }
  }

  /**
    What any step leaves alone: it touches at most the new node `n`, which is
    not linked yet, and it only appends to the chain.
   */
  ghost predicate Frame(s: State, s': State, n: Ptr) {
    && n !in s.chain
    && (s'.chain == s.chain || (n != NULL && s'.chain == s.chain + [n]))
    && (forall p :: p in s.heap && p != n ==> p in s'.heap && s'.heap[p] == s.heap[p])
    && s.returned <= s'.returned
  }

  lemma FramePos(s: State, s': State, n: Ptr, p: Ptr)
    requires Frame(s, s', n) && Linked(s.chain, p) && NULL !in s.chain
    ensures Linked(s'.chain, p) && Pos(s'.chain, p) == Pos(s.chain, p)
  {
    if s'.chain != s.chain {
      PosAppend(s.chain, n, p);
    }
  }

  lemma FrameNoKey(s: State, s': State, n: Ptr, key: Cell, lo: nat, hi: nat)
    requires ListOk(s) && ListOk(s') && Frame(s, s', n) && hi <= |s.chain| && NoKey(s, key, lo, hi)
    ensures hi <= |s'.chain| && NoKey(s', key, lo, hi)
  {
    forall i | lo <= i < hi ensures s'.heap[s'.chain[i]].key != key {
      assert s'.chain[i] == s.chain[i];
    }
  }

  /** The threads that do not move keep what they know. */
  lemma OthersStayOk(s: State, s': State, u: nat, n: Ptr)
    requires ListOk(s) && ListOk(s') && Frame(s, s', n)
    requires u in s.threads && u in s'.threads && s'.threads[u] == s.threads[u] && LocalOk(s, u)
    requires Own(s.threads[u]) != NULL ==> Own(s.threads[u]) != n
    ensures LocalOk(s', u)
  {
    hide ListOk, Frame, NoKey, Pos;
    match s.threads[u]
    case Idle =>
    case Load(_) =>
    case Scan(key, oldHead, p) =>
      FrameFacts(s, s', n);
      FramePos(s, s', n, oldHead);
      FramePos(s, s', n, p);
      FrameNoKey(s, s', n, key, Pos(s.chain, p), Pos(s.chain, oldHead));
    case Swap(key, oldHead, m) =>
      FrameFacts(s, s', n);
      FramePrivate(s, s', n, key, m);
      FramePos(s, s', n, oldHead);
      FrameNoKey(s, s', n, key, 0, Pos(s.chain, oldHead));
    case Rescan(key, oldHead, m, p) =>
      FrameFacts(s, s', n);
      FramePrivate(s, s', n, key, m);
      FramePos(s, s', n, oldHead);
      FramePos(s, s', n, p);
      FramePos(s, s', n, s.heap[m].next);
      FrameNoKey(s, s', n, key, 0, Pos(s.chain, oldHead));
      FrameNoKey(s, s', n, key, Pos(s.chain, p), Pos(s.chain, s.heap[m].next));
    case Done(_, _) =>
      FrameFacts(s, s', n);
  }

  lemma FrameFacts(s: State, s': State, n: Ptr)
    requires ListOk(s) && Frame(s, s', n)
    ensures NULL !in s.chain && s.returned <= s'.returned
  {
  }

  lemma FramePrivate(s: State, s': State, n: Ptr, key: Cell, m: Ptr)
    requires Frame(s, s', n) && Private(s, key, m) && m != n
    ensures Private(s', key, m) && s'.heap[m] == s.heap[m]
  {
  }

  /** The shared list is untouched by everything but a successful exchange. */
  lemma ListUntouched(s: State, s': State, n: Ptr)
    requires ListOk(s) && Frame(s, s', n) && s'.chain == s.chain && s'.head == s.head
    ensures ListOk(s')
  {
    forall p | p in s.chain ensures p in s'.heap && s'.heap[p] == s.heap[p] {
    }
  }

  /** Linking a node whose key nobody has, in front of the head it points at. */
  lemma ListAppend(s: State, s': State, key: Cell, n: Ptr)
    requires ListOk(s) && Private(s, key, n) && s.heap[n].next == s.head && NoKey(s, key, 0, |s.chain|)
    requires s'.chain == s.chain + [n] && s'.head == n && s'.heap == s.heap
    ensures ListOk(s')
  {
    var c := s'.chain;
    forall i, j | 0 < i < |c| && j == i - 1 ensures s'.heap[c[i]].next == c[j] {
      if i < |s.chain| { assert s.heap[s.chain[i]].next == s.chain[j]; }
    }
    forall i, j | 0 <= i < j < |c| ensures s'.heap[c[i]].key != s'.heap[c[j]].key {
      if j < |s.chain| { assert s.heap[s.chain[i]].key != s.heap[s.chain[j]].key; }
    }
  }

  lemma ReturnedStays(s: State, s': State, n: Ptr)
    requires ListOk(s) && Frame(s, s', n) && ReturnedOk(s)
    requires forall q :: q in s'.returned && q !in s.returned ==>
      q.1 in s'.chain && q.1 in s'.heap && s'.heap[q.1].key == q.0
    ensures ReturnedOk(s')
  {
  }

  /** Owners stay different when thread `t` owns nothing now, what it owned, or something new. */
  lemma OwnersStayDifferent(s: State, s': State, t: nat)
    requires OwnersDiffer(s) && t in s.threads
    requires t in s'.threads && s'.threads == s.threads[t := s'.threads[t]]
    requires var own := Own(s'.threads[t]);
      own == NULL || own == Own(s.threads[t]) || forall u :: u in s.threads ==> Own(s.threads[u]) != own
    ensures OwnersDiffer(s')
  {
  }

  /** The node a step works on: the thread's own one, old or new. */
  ghost function Touched(s: State, s': State, t: nat): Ptr
    requires t in s.threads && t in s'.threads
  {
    if Own(s.threads[t]) != NULL then Own(s.threads[t]) else Own(s'.threads[t])
  }

  lemma OwnIsPrivate(s: State, t: nat)
    requires t in s.threads && ListOk(s) && LocalOk(s, t) && Own(s.threads[t]) != NULL
    ensures Own(s.threads[t]) in s.heap && Own(s.threads[t]) !in s.chain
  {
  }

  lemma StepMovesOne(s: State, s': State, t: nat)
    requires t in s.threads && ThreadStep(s, s', t)
    ensures t in s'.threads && s'.threads == s.threads[t := s'.threads[t]]
  {
    match s.threads[t]
    case Idle =>
    case Load(_) =>
    case Scan(_, _, _) =>
    case Swap(_, _, _) =>
    case Rescan(_, _, _, _) =>
    case Done(_, _) =>
  }

  lemma StepOwns(s: State, s': State, t: nat)
    requires t in s.threads && t in s'.threads && ThreadStep(s, s', t)
    ensures Own(s.threads[t]) == NULL && Own(s'.threads[t]) != NULL ==> Own(s'.threads[t]) !in s.heap
    ensures Own(s.threads[t]) != NULL && Own(s'.threads[t]) != NULL ==> Own(s'.threads[t]) == Own(s.threads[t])
  {
    match s.threads[t]
    case Idle =>
    case Load(_) =>
    case Scan(_, _, _) =>
    case Swap(_, _, _) =>
    case Rescan(_, _, _, _) =>
    case Done(_, _) =>
  }

  /** What a step on the new node `n` may do to the shared part. */
  predicate Touches(s: State, s': State, n: Ptr) {
    && (s'.chain == s.chain || (n != NULL && s'.chain == s.chain + [n]))
    && s.returned <= s'.returned
    && (s'.heap == s.heap || s'.heap == s.heap - {n} || (n in s'.heap && s'.heap == s.heap[n := s'.heap[n]]))
  }

  lemma StepTouches(s: State, s': State, t: nat)
    requires t in s.threads && t in s'.threads && ThreadStep(s, s', t)
    requires s.threads[t].Swap? || s.threads[t].Rescan? ==> s.threads[t].node != NULL
    ensures Touches(s, s', Touched(s, s', t))
  {
    match s.threads[t]
    case Idle =>
    case Load(_) =>
    case Scan(_, _, _) =>
    case Swap(_, _, _) =>
    case Rescan(_, _, _, _) =>
    case Done(_, _) =>
  }

  lemma TouchesIsFrame(s: State, s': State, n: Ptr)
    requires Touches(s, s', n) && n !in s.chain
    ensures Frame(s, s', n)
  {
  }

  lemma StepShares(s: State, s': State, t: nat)
    requires ListOk(s) && t in s.threads && t in s'.threads && LocalOk(s, t) && ThreadStep(s, s', t)
    ensures Frame(s, s', Touched(s, s', t))
  {
    hide ListOk, NoKey, Pos, Linked, ThreadStep, Touches, Frame;
    LinkedAreNodes(s);
    StepOwns(s, s', t);
    StepTouches(s, s', t);
    TouchesIsFrame(s, s', Touched(s, s', t));
  }

  lemma StepFrame(s: State, s': State, t: nat)
    requires ListOk(s) && t in s.threads && LocalOk(s, t) && ThreadStep(s, s', t)
    ensures t in s'.threads && s'.threads == s.threads[t := s'.threads[t]]
    ensures Frame(s, s', Touched(s, s', t))
    ensures Own(s.threads[t]) == NULL && Own(s'.threads[t]) != NULL ==> Own(s'.threads[t]) !in s.heap
    ensures Own(s.threads[t]) != NULL && Own(s'.threads[t]) != NULL ==> Own(s'.threads[t]) == Own(s.threads[t])
  {
    hide ListOk, LocalOk, ThreadStep, Frame, Touched;
    StepMovesOne(s, s', t);
    StepOwns(s, s', t);
    StepShares(s, s', t);
  }

  lemma LinkedAreNodes(s: State)
    requires ListOk(s)
    ensures NULL !in s.chain && forall p :: p in s.chain ==> p in s.heap
  {
  }

  /** After one more node was looked at, the scanned part has grown by it. */
  lemma NoKeyGrows(s: State, key: Cell, p: Ptr, hi: nat)
    requires ListOk(s) && p in s.chain && hi <= |s.chain|
    requires NoKey(s, key, Pos(s.chain, p), hi) && p in s.heap && s.heap[p].key != key
    ensures Linked(s.chain, s.heap[p].next) && NoKey(s, key, Pos(s.chain, s.heap[p].next), hi)
    ensures Pos(s.chain, s.heap[p].next) == Pos(s.chain, p) - 1
  {
    NextIsBefore(s, p);
  }

  lemma LoadKeeps(s: State, s': State, t: nat)
    requires ListOk(s) && t in s.threads && LocalOk(s, t) && ThreadStep(s, s', t) && s.threads[t].Load?
    ensures ListOk(s') && t in s'.threads && LocalOk(s', t)
  {
    HeadIsLast(s);
    ListUntouched(s, s', NULL);
  }

  lemma ScanKeeps(s: State, s': State, t: nat)
    requires ListOk(s) && t in s.threads && LocalOk(s, t) && ThreadStep(s, s', t) && s.threads[t].Scan?
    ensures ListOk(s') && t in s'.threads && LocalOk(s', t)
  {
    StepFrame(s, s', t);
    var Scan(key, oldHead, p) := s.threads[t];
    var n := Touched(s, s', t);
    ListUntouched(s, s', n);
    hide ListOk, NoKey, Pos;
    if p == NULL {
      PosNull(s);
      FramePos(s, s', n, oldHead);
      FrameNoKey(s, s', n, key, 0, Pos(s.chain, oldHead));
    } else if s.heap[p].key != key {
      NoKeyGrows(s, key, p, Pos(s.chain, oldHead));
    }
  }

  lemma SwapKeeps(s: State, s': State, t: nat)
    requires ListOk(s) && t in s.threads && LocalOk(s, t) && ThreadStep(s, s', t) && s.threads[t].Swap?
    ensures ListOk(s') && t in s'.threads && LocalOk(s', t)
  {
    hide ListOk, NoKey, Pos;
    StepFrame(s, s', t);
    var Swap(key, oldHead, m) := s.threads[t];
    HeadIsLast(s);
    if s'.chain == s.chain {
      ListUntouched(s, s', m);
      PosBound(s, oldHead);
      FrameFacts(s, s', m);
      FramePos(s, s', m, oldHead);
      FramePos(s, s', m, s.head);
      FrameNoKey(s, s', m, key, 0, Pos(s.chain, oldHead));
      NoKeyNothing(s', key, Pos(s'.chain, s.head));
    } else {
      LinkedAreNodes(s);
      ListAppend(s, s', key, m);
    }
  }

  lemma RescanKeeps(s: State, s': State, t: nat)
    requires ListOk(s) && t in s.threads && LocalOk(s, t) && ThreadStep(s, s', t) && s.threads[t].Rescan?
    ensures ListOk(s') && t in s'.threads && LocalOk(s', t)
  {
    hide ListOk, NoKey, Pos, Frame;
    StepFrame(s, s', t);
    var Rescan(key, oldHead, m, p) := s.threads[t];
    RescanUnlinked(s, s', t);
    ListUntouched(s, s', m);
    if p == oldHead {
      NoKeyJoin(s, key, Pos(s.chain, p), Pos(s.chain, s.heap[m].next));
      FramePos(s, s', m, s.heap[m].next);
      FrameNoKey(s, s', m, key, 0, Pos(s.chain, s.heap[m].next));
    } else {
      RescanTarget(s, oldHead, p);
      if s.heap[p].key != key {
        RescanAdvances(s, s', t);
      }
    }
  }

  lemma RescanUnlinked(s: State, s': State, t: nat)
    requires ListOk(s) && t in s.threads && LocalOk(s, t) && ThreadStep(s, s', t) && s.threads[t].Rescan?
    ensures s'.chain == s.chain && s'.head == s.head && NULL !in s.chain
    ensures var Rescan(key, oldHead, m, p) := s.threads[t]; Frame(s, s', m)
  {
    hide NoKey, Pos;
  }

  lemma RescanAdvances(s: State, s': State, t: nat)
    requires ListOk(s) && ListOk(s') && t in s.threads && LocalOk(s, t) && ThreadStep(s, s', t) && s.threads[t].Rescan?
    requires var Rescan(key, oldHead, m, p) := s.threads[t]; p != oldHead && p in s.heap && s.heap[p].key != key
    ensures t in s'.threads && LocalOk(s', t)
  {
    hide ListOk, NoKey, Pos;
    var Rescan(key, oldHead, m, p) := s.threads[t];
    RescanTarget(s, oldHead, p);
    NoKeyGrows(s, key, p, Pos(s.chain, s.heap[m].next));
    NoKeySame(s, s', key, 0, Pos(s.chain, oldHead));
    NoKeySame(s, s', key, Pos(s.chain, s.heap[p].next), Pos(s.chain, s.heap[m].next));
  }

  lemma NoKeySame(s: State, s': State, key: Cell, lo: nat, hi: nat)
    requires ListOk(s) && hi <= |s.chain| && NoKey(s, key, lo, hi)
    requires s'.chain == s.chain && s'.heap == s.heap
    ensures NoKey(s', key, lo, hi)
  {
  }

  lemma PosNull(s: State)
    requires ListOk(s)
    ensures Pos(s.chain, NULL) == 0
  {
  }

  lemma PosBound(s: State, p: Ptr)
    requires HeadFacts(s)
    ensures Pos(s.chain, p) <= Pos(s.chain, s.head)
  {
  }

  ghost predicate HeadFacts(s: State) {
    Pos(s.chain, s.head) == |s.chain|
  }

  lemma NoKeyNothing(s: State, key: Cell, n: nat)
    requires n <= |s.chain| && forall p :: p in s.chain ==> p in s.heap
    ensures NoKey(s, key, n, n)
  {
  }

  lemma NoKeyJoin(s: State, key: Cell, mid: nat, hi: nat)
    requires ListOk(s) && mid <= |s.chain| && hi <= |s.chain|
    requires NoKey(s, key, 0, mid) && NoKey(s, key, mid, hi)
    ensures NoKey(s, key, 0, hi)
  {
  }

  /** The rescan never runs past the end of the list: it meets the old head first. */
  lemma RescanTarget(s: State, oldHead: Ptr, p: Ptr)
    requires ListOk(s) && Linked(s.chain, oldHead) && Linked(s.chain, p)
    requires Pos(s.chain, oldHead) <= Pos(s.chain, p) && p != oldHead
    ensures p in s.chain && p in s.heap && Pos(s.chain, oldHead) < Pos(s.chain, p)
  {
  }

  /** The thread that moves ends up knowing what its next position needs. */
  lemma MoverStaysOk(s: State, s': State, t: nat)
    requires ListOk(s) && t in s.threads && LocalOk(s, t) && ThreadStep(s, s', t)
    ensures ListOk(s') && t in s'.threads && LocalOk(s', t)
  {
    match s.threads[t]
    case Idle => ListUntouched(s, s', NULL);
    case Load(_) => LoadKeeps(s, s', t);
    case Scan(_, _, _) => ScanKeeps(s, s', t);
    case Swap(_, _, _) => SwapKeeps(s, s', t);
    case Rescan(_, _, _, _) => RescanKeeps(s, s', t);
    case Done(_, _) => ListUntouched(s, s', NULL);
  }

  /** What a call returns is linked and has the call's key. */
  lemma ReturnsLinked(s: State, s': State, t: nat)
    requires ListOk(s) && t in s.threads && LocalOk(s, t) && ThreadStep(s, s', t)
    ensures forall q :: q in s'.returned && q !in s.returned ==>
      q.1 in s'.chain && q.1 in s'.heap && s'.heap[q.1].key == q.0
  {
    hide NoKey, Pos, ListOk;
    match s.threads[t]
    case Idle =>
    case Load(_) =>
    case Scan(_, _, _) =>
    case Swap(_, _, _) =>
    case Rescan(key, oldHead, m, p) =>
      if p != oldHead {
        RescanTarget(s, oldHead, p);
      }
    case Done(_, _) =>
  }

  lemma MoverOwnsNew(s: State, s': State, t: nat)
    requires Inv(s) && Advances(s, s', t)
    ensures t in s'.threads && OwnersDiffer(s')
  {
    StepFrame(s, s', t);
    if Own(s.threads[t]) == NULL && Own(s'.threads[t]) != NULL {
      forall u | u in s.threads ensures Own(s.threads[u]) != Own(s'.threads[t]) {
        if Own(s.threads[u]) != NULL { OwnIsPrivate(s, u); }
      }
    }
    OwnersStayDifferent(s, s', t);
  }

  /** The node a step works on is not another thread's. */
  lemma OthersUntouched(s: State, s': State, t: nat, u: nat)
    requires Inv(s) && Advances(s, s', t) && u in s.threads && u != t && Own(s.threads[u]) != NULL
    requires t in s'.threads
    ensures Own(s.threads[u]) != Touched(s, s', t)
  {
    hide LocalOk, ListOk, ThreadStep;
    StepFrame(s, s', t);
    OwnIsPrivate(s, u);
  }

  /** Every step of every thread keeps the invariant. */
  lemma StepKeepsInv(s: State, s': State, t: nat)
    requires Inv(s) && Advances(s, s', t)
    ensures Inv(s')
  {
    hide ListOk, LocalOk, ThreadStep, ReturnedOk, OwnersDiffer, Frame;
    StepFrame(s, s', t);
    MoverStaysOk(s, s', t);
    MoverOwnsNew(s, s', t);
    ReturnsLinked(s, s', t);
    ReturnedStays(s, s', Touched(s, s', t));
    forall u | u in s'.threads ensures LocalOk(s', u) {
      if u != t {
        if Own(s.threads[u]) != NULL { OthersUntouched(s, s', t, u); }
        OthersStayOk(s, s', u, Touched(s, s', t));
      }
    }
  }

  // ---- Every interleaving

  ghost predicate IsBehaviour(trace: seq<State>) {
    |trace| > 0 && Init(trace[0]) && forall i :: 0 <= i < |trace| - 1 ==> Follows(trace, i)
  }

  ghost predicate Follows(trace: seq<State>, i: nat)
    requires i + 1 < |trace|
  {
    Next(trace[i], trace[i + 1])
  }

  lemma {:induction false} AlwaysInv(trace: seq<State>, i: nat)
    requires IsBehaviour(trace) && i < |trace|
    ensures Inv(trace[i])
  {
    if i > 0 {
      AlwaysInv(trace, i - 1);
      assert Follows(trace, i - 1);
      hide Inv, ThreadStep;
      var t :| Advances(trace[i - 1], trace[i], t);
      StepKeepsInv(trace[i - 1], trace[i], t);
    }
  }

  /** Linked nodes stay linked where they are, and what was returned stays returned. */
  lemma {:induction false} ListOnlyGrows(trace: seq<State>, i: nat, j: nat)
    requires IsBehaviour(trace) && i <= j < |trace|
    ensures trace[i].chain <= trace[j].chain && trace[i].returned <= trace[j].returned
    ensures forall p :: p in trace[i].chain && p in trace[i].heap ==>
      p in trace[j].heap && trace[j].heap[p] == trace[i].heap[p]
    decreases j
  {
    if i < j {
      ListOnlyGrows(trace, i, j - 1);
      AlwaysInv(trace, j - 1);
      assert Follows(trace, j - 1);
      hide ThreadStep, LocalOk;
      var t :| Advances(trace[j - 1], trace[j], t);
      StepFrame(trace[j - 1], trace[j], t);
    }
  }

  /** In every state of every interleaving no two linked nodes have one key. */
  lemma KeysStayUnique(trace: seq<State>, i: nat, p: Ptr, q: Ptr)
    requires IsBehaviour(trace) && i < |trace|
    requires p in trace[i].chain && q in trace[i].chain
    ensures p in trace[i].heap && q in trace[i].heap
    ensures trace[i].heap[p].key == trace[i].heap[q].key ==> p == q
  {
    AlwaysInv(trace, i);
    if trace[i].heap[p].key == trace[i].heap[q].key {
      SameKeySameNode(trace[i], p, q);
    }
  }

  lemma SameKeySameNode(s: State, p: Ptr, q: Ptr)
    requires ListOk(s) && p in s.chain && q in s.chain
    requires p in s.heap && q in s.heap && s.heap[p].key == s.heap[q].key
    ensures p == q
  {
    var i :| 0 <= i < |s.chain| && s.chain[i] == p;
    var j :| 0 <= j < |s.chain| && s.chain[j] == q;
  }

  /**
    All calls with one key return the same node, whichever threads make them
    and whenever they end; that node has the key and stays linked.
   */
  lemma CallsAgree(trace: seq<State>, i: nat, t: nat, j: nat, u: nat)
    requires IsBehaviour(trace) && i <= j < |trace|
    requires t in trace[i].threads && trace[i].threads[t].Done?
    requires u in trace[j].threads && trace[j].threads[u].Done?
    requires trace[i].threads[t].key == trace[j].threads[u].key
    ensures trace[i].threads[t].result == trace[j].threads[u].result
    ensures var r := trace[i].threads[t].result;
      r in trace[j].chain && r in trace[j].heap && trace[j].heap[r].key == trace[i].threads[t].key
  {
    AlwaysInv(trace, i);
    AlwaysInv(trace, j);
    ListOnlyGrows(trace, i, j);
    var a, b := trace[i].threads[t], trace[j].threads[u];
    DoneIsReturned(trace[i], t);
    DoneIsReturned(trace[j], u);
    assert (a.key, a.result) in trace[j].returned;
    hide ListOk, LocalOk, OwnersDiffer;
    SameKeySameNode(trace[j], a.result, b.result);
  }

  lemma DoneIsReturned(s: State, t: nat)
    requires Inv(s) && t in s.threads && s.threads[t].Done?
    ensures (s.threads[t].key, s.threads[t].result) in s.returned
  {
    assert LocalOk(s, t);
  }

  // ---- freeNodes, alone

  type Heap = map<Ptr, ListNode>

  /** Following `next` from `from` visits `nodes` and arrives at `to`. */
  ghost predicate Segment(heap: Heap, from: Ptr, nodes: seq<Ptr>, to: Ptr)
    decreases nodes
  {
    if nodes == [] then from == to
    else from == nodes[0] && from != NULL && from in heap && Segment(heap, heap[from].next, nodes[1..], to)
  }

  /** The marked nodes, in their order. */
  function InUse(heap: Heap, nodes: seq<Ptr>): seq<Ptr>
    requires forall p :: p in nodes ==> p in heap
  {
    if nodes == [] then [] else (if heap[nodes[0]].inUse then [nodes[0]] else []) + InUse(heap, nodes[1..])
  }

  lemma {:induction false} SegmentFrame(heap: Heap, heap': Heap, from: Ptr, nodes: seq<Ptr>, to: Ptr)
    requires Segment(heap, from, nodes, to)
    requires forall p :: p in nodes && p in heap ==> p in heap' && heap'[p].next == heap[p].next
    ensures Segment(heap', from, nodes, to)
    decreases nodes
  {
    if nodes != [] {
      assert nodes[0] in nodes && forall p :: p in nodes[1..] ==> p in nodes;
      SegmentFrame(heap, heap', heap[from].next, nodes[1..], to);
    }
  }

  lemma {:induction false} SegmentSnoc(heap: Heap, from: Ptr, nodes: seq<Ptr>, to: Ptr)
    requires Segment(heap, from, nodes, to) && to != NULL && to in heap
    ensures Segment(heap, from, nodes + [to], heap[to].next)
    decreases nodes
  {
    if nodes != [] {
      SegmentSnoc(heap, heap[from].next, nodes[1..], to);
      assert (nodes + [to])[1..] == nodes[1..] + [to];
    }
  }

  lemma {:induction false} SegmentNodes(heap: Heap, from: Ptr, nodes: seq<Ptr>, to: Ptr)
    requires Segment(heap, from, nodes, to)
    ensures forall p :: p in nodes ==> p in heap && p != NULL
    decreases nodes
  {
    if nodes != [] {
      SegmentNodes(heap, heap[from].next, nodes[1..], to);
      assert forall p :: p in nodes ==> p == nodes[0] || p in nodes[1..];
    }
  }

  lemma {:induction false} InUseExactly(heap: Heap, nodes: seq<Ptr>)
    requires forall p :: p in nodes ==> p in heap
    ensures forall p :: p in InUse(heap, nodes) <==> p in nodes && heap[p].inUse
    ensures Distinct(nodes) ==> Distinct(InUse(heap, nodes))
  {
    if nodes != [] {
      InUseExactly(heap, nodes[1..]);
      assert nodes == [nodes[0]] + nodes[1..];
    }
  }

  /** The nodes that `inUse` spares in a stretch, added one at a time. */
  lemma InUseNext(heap: Heap, nodes: seq<Ptr>, k: nat)
    requires k < |nodes| && forall p :: p in nodes ==> p in heap
    ensures InUse(heap, nodes[k..]) ==
      (if heap[nodes[k]].inUse then [nodes[k]] else []) + InUse(heap, nodes[k + 1..])
  {
    assert nodes[k..][1..] == nodes[k + 1..];
  }

  /** What `freeNodes` has left of the heap after deleting the unmarked ones of the first `k` nodes. */
  ghost predicate Freed(was: Heap, heap: Heap, nodes: seq<Ptr>, k: nat)
    requires k <= |nodes| && forall q :: q in nodes ==> q in was
  {
    && (forall q :: q in heap <==> q in was && (q in nodes[..k] ==> was[q].inUse))
    && (forall q :: q in heap && q in was ==> heap[q].key == was[q].key && heap[q].inUse == was[q].inUse)
    && (forall q :: q in heap && q in was && q !in nodes[..k] ==> heap[q] == was[q])
  }

  /** The first loop: every node before `p` was unmarked. */
  ghost predicate Skipped(was: Heap, heap: Heap, nodes: seq<Ptr>, p: Ptr, k: nat) {
    && k <= |nodes| && Distinct(nodes) && (forall q :: q in nodes ==> q in was && q != NULL)
    && Segment(was, p, nodes[k..], NULL)
    && InUse(was, nodes[k..]) == InUse(was, nodes)
    && Freed(was, heap, nodes, k)
  }

  /** The second loop: `kept` and then `p` are the marked ones of the first `k` nodes, linked; the rest hangs on `p`. */
  ghost predicate Filtered(was: Heap, heap: Heap, nodes: seq<Ptr>, head: Ptr, kept: seq<Ptr>, p: Ptr, k: nat) {
    && k <= |nodes| && Distinct(nodes) && (forall q :: q in nodes ==> q in was && q != NULL)
    && p in heap && p in nodes[..k] && p !in kept && (forall q :: q in kept ==> q in nodes[..k])
    && Segment(heap, head, kept, p)
    && Segment(was, heap[p].next, nodes[k..], NULL)
    && InUse(was, nodes) == kept + [p] + InUse(was, nodes[k..])
    && Freed(was, heap, nodes, k)
  }

  lemma NotBefore(nodes: seq<Ptr>, k: nat)
    requires Distinct(nodes) && k < |nodes|
    ensures nodes[k] !in nodes[..k] && nodes[..k + 1] == nodes[..k] + [nodes[k]] && nodes[k..][0] == nodes[k]
    ensures nodes[k..][1..] == nodes[k + 1..]
  {
  }

  lemma SkipOne(was: Heap, heap: Heap, nodes: seq<Ptr>, p: Ptr, k: nat)
    requires Skipped(was, heap, nodes, p, k) && p != NULL
    ensures k < |nodes| && p == nodes[k] && p in heap
    ensures !heap[p].inUse ==> Skipped(was, heap - {p}, nodes, heap[p].next, k + 1)
  {
    NotBefore(nodes, k);
    InUseNext(was, nodes, k);
  }

  lemma SkipDone(was: Heap, heap: Heap, nodes: seq<Ptr>, p: Ptr, k: nat)
    requires Skipped(was, heap, nodes, p, k) && p != NULL && p in heap && heap[p].inUse
    ensures k < |nodes| && Filtered(was, heap, nodes, p, [], p, k + 1)
  {
    NotBefore(nodes, k);
    InUseNext(was, nodes, k);
  }

  lemma FreeOne(was: Heap, heap: Heap, nodes: seq<Ptr>, k: nat)
    requires k < |nodes| && Distinct(nodes) && forall q :: q in nodes ==> q in was
    requires Freed(was, heap, nodes, k)
    ensures nodes[k] in heap
    ensures !heap[nodes[k]].inUse ==> Freed(was, heap - {nodes[k]}, nodes, k + 1)
    ensures heap[nodes[k]].inUse ==> Freed(was, heap, nodes, k + 1)
  {
    NotBefore(nodes, k);
  }

  lemma NextOne(was: Heap, heap: Heap, nodes: seq<Ptr>, head: Ptr, kept: seq<Ptr>, p: Ptr, k: nat)
    requires Filtered(was, heap, nodes, head, kept, p, k) && heap[p].next != NULL
    ensures k < |nodes| && heap[p].next == nodes[k] && nodes[k] in heap && nodes[k] != p && nodes[k] !in kept
    ensures heap[nodes[k]] == was[nodes[k]] && Segment(was, was[nodes[k]].next, nodes[k + 1..], NULL)
  {
    NotBefore(nodes, k);
    FreeOne(was, heap, nodes, k);
  }

  /** The heap after deleting the node behind `p`. */
  function Bypass(heap: Heap, p: Ptr): (r: Heap)
    requires p in heap && heap[p].next in heap && heap[p].next != p
    ensures p in r && r[p].next == heap[heap[p].next].next
    ensures forall q :: q in heap && q != p && q != heap[p].next ==> q in r && r[q] == heap[q]
  {
    (heap - {heap[p].next})[p := heap[p].(next := heap[heap[p].next].next)]
  }

  lemma DropOne(was: Heap, heap: Heap, nodes: seq<Ptr>, head: Ptr, kept: seq<Ptr>, p: Ptr, k: nat)
    requires Filtered(was, heap, nodes, head, kept, p, k) && heap[p].next != NULL
    requires heap[p].next in heap && heap[p].next != p && !heap[heap[p].next].inUse
    ensures k < |nodes| && Filtered(was, Bypass(heap, p), nodes, head, kept, p, k + 1)
  {
    NextOne(was, heap, nodes, head, kept, p, k);
    DropFreed(was, heap, nodes, k, p);
    hide Segment, InUse, Freed, Distinct, Bypass;
    NotBefore(nodes, k);
    InUseNext(was, nodes, k);
    SegmentFrame(heap, Bypass(heap, p), head, kept, p);
    assert InUse(was, nodes[k..]) == InUse(was, nodes[k + 1..]);
  }

  lemma DropFreed(was: Heap, heap: Heap, nodes: seq<Ptr>, k: nat, p: Ptr)
    requires k < |nodes| && Distinct(nodes) && (forall q :: q in nodes ==> q in was)
    requires Freed(was, heap, nodes, k) && p in heap && p in nodes[..k] && heap[p].next == nodes[k]
    requires nodes[k] in heap && nodes[k] != p && !heap[nodes[k]].inUse
    ensures Freed(was, Bypass(heap, p), nodes, k + 1)
  {
    hide Distinct;
    NotBefore(nodes, k);
    var r := Bypass(heap, p);
    forall q | q in r ensures q in was && (q in nodes[..k + 1] ==> was[q].inUse) {
    }
  }

  lemma PassOne(was: Heap, heap: Heap, nodes: seq<Ptr>, head: Ptr, kept: seq<Ptr>, p: Ptr, k: nat)
    requires Filtered(was, heap, nodes, head, kept, p, k) && heap[p].next != NULL
    requires heap[p].next in heap && heap[heap[p].next].inUse
    ensures k < |nodes| && Filtered(was, heap, nodes, head, kept + [p], heap[p].next, k + 1)
  {
    NextOne(was, heap, nodes, head, kept, p, k);
    hide Segment, InUse, Freed, Distinct;
    NotBefore(nodes, k);
    FreeOne(was, heap, nodes, k);
    InUseNext(was, nodes, k);
    SegmentSnoc(heap, head, kept, p);
    assert kept + [p] + ([nodes[k]] + InUse(was, nodes[k + 1..])) ==
      kept + [p] + [nodes[k]] + InUse(was, nodes[k + 1..]);
  }

  lemma FilterDone(was: Heap, heap: Heap, nodes: seq<Ptr>, head: Ptr, kept: seq<Ptr>, p: Ptr, k: nat)
    requires Filtered(was, heap, nodes, head, kept, p, k) && heap[p].next == NULL
    ensures k == |nodes| && (forall q :: q in nodes ==> q in was)
    ensures Segment(heap, head, InUse(was, nodes), NULL) && Freed(was, heap, nodes, k)
  {
    SegmentSnoc(heap, head, kept, p);
    assert k == |nodes| by {
      if k < |nodes| { NotBefore(nodes, k); }
    }
    assert kept + [p] + [] == kept + [p];
  }

  lemma SkipNothing(heap: Heap, head: Ptr, nodes: seq<Ptr>)
    requires Segment(heap, head, nodes, NULL) && Distinct(nodes)
    ensures Skipped(heap, heap, nodes, head, 0)
    ensures head != NULL ==> head in heap && |nodes| > 0
  {
    SegmentNodes(heap, head, nodes, NULL);
    assert nodes[0..] == nodes;
  }

  lemma SkipHead(was: Heap, heap: Heap, nodes: seq<Ptr>, p: Ptr, k: nat)
    requires Skipped(was, heap, nodes, p, k)
    ensures p != NULL ==> k < |nodes| && p in heap
  {
    if k < |nodes| { NotBefore(nodes, k); }
  }

  lemma SkipAll(was: Heap, heap: Heap, nodes: seq<Ptr>, k: nat)
    requires Skipped(was, heap, nodes, NULL, k)
    ensures (forall q :: q in nodes ==> q in was) && InUse(was, nodes) == []
    ensures Segment(heap, NULL, [], NULL) && Freed(was, heap, nodes, |nodes|)
  {
    if k < |nodes| {
      NotBefore(nodes, k);
    }
    assert nodes[..|nodes|] == nodes[..k];
  }

  class LockFreeBucket {
    var listHead: Ptr
    var heap: Heap

    /** The list, from the head to null. */
    ghost predicate Holds(nodes: seq<Ptr>)
      reads this
    {
      Segment(heap, listHead, nodes, NULL) && Distinct(nodes)
    }

    /**
      Deletes every unmarked node of the list in one pass and keeps the marked
      ones linked in their order; their keys and marks do not change.
     */
    method FreeNodes(ghost nodes: seq<Ptr>)
      requires Holds(nodes)
      modifies this
      ensures (forall p :: p in nodes ==> p in old(heap)) && Holds(InUse(old(heap), nodes))
      ensures Freed(old(heap), heap, nodes, |nodes|)
    {
      hide Skipped, Filtered, Freed, Segment, InUse;
      ghost var was := heap;
      ghost var k := 0;
      var p := listHead;
      SkipNothing(was, p, nodes);
      while p != NULL && !heap[p].inUse
        invariant Skipped(was, heap, nodes, p, k) && (p != NULL ==> p in heap && k < |nodes|)
        decreases |nodes| - k
      {
        SkipOne(was, heap, nodes, p, k);
        var tmp := heap[p].next;
        heap := heap - {p};
        p := tmp;
        k := k + 1;
        SkipHead(was, heap, nodes, p, k);
      }
      listHead := p;
      if p == NULL {
        SkipAll(was, heap, nodes, k);
        InUseExactly(was, nodes);
        return;
      }
      SkipDone(was, heap, nodes, p, k);
      k := k + 1;
      ghost var kept := [];
      while heap[p].next != NULL
        invariant Filtered(was, heap, nodes, listHead, kept, p, k) && p in heap && k <= |nodes|
        decreases |nodes| - k
      {
        NextOne(was, heap, nodes, listHead, kept, p, k);
        var q := heap[p].next;
        if !heap[q].inUse {
          DropOne(was, heap, nodes, listHead, kept, p, k);
          var tmp := heap[q].next;
          heap := (heap - {q})[p := heap[p].(next := tmp)];
        } else {
          PassOne(was, heap, nodes, listHead, kept, p, k);
          kept := kept + [p];
          p := q;
        }
        k := k + 1;
      }
      FilterDone(was, heap, nodes, listHead, kept, p, k);
      InUseExactly(was, nodes);
    }
  }
}
