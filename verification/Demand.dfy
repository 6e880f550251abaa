/**
  Which nodes an operation makes and how many slots that takes, whatever the
  cache holds: the functions its answer is built from, and the ones among them
  that no node of the table denotes yet.
 */
module Demand {
  import opened Collections
  import opened Nodes
  import opened Diagrams
  import opened Operators

  /** The functions that the nodes of `s` denote. */
  ghost function Dens(g: Graph, s: set<Ptr>): set<Fun>
    requires WellFormed(g) && s <= g.Keys
  {
    set p | p in s :: Den(g, p)
  }

  /** Different nodes denote different functions. */
  lemma {:induction false} DensSize(g: Graph, s: set<Ptr>)
    requires WellFormed(g) && s <= g.Keys
    ensures |Dens(g, s)| == |s|
  {
    if s == {} {
      assert Dens(g, s) == {};
    } else {
      var p :| p in s;
      DensSize(g, s - {p});
      forall q | q in s - {p} ensures Den(g, q) != Den(g, p) {
        Canonicity(g, p, q);
      }
      assert Dens(g, s) == Dens(g, s - {p}) + {Den(g, p)};
    }
  }

  /** The function an operation is to denote. */
  ghost function Answer(g: Graph, op: Op, x: Ptr, y: Ptr): Fun
    requires WellFormed(g) && x in g && y in g
  {
    ApplyFun(op, Den(g, x), Den(g, y))
  }

  /** The cofactor functions of the answer: those of the operands' cofactors, level by level. */
  ghost function Answers(g: Graph, op: Op, x: Ptr, y: Ptr): set<Fun>
    requires WellFormed(g) && x in g && y in g
    decreases UINT_MAX - Min(g[x].level, g[y].level)
  {
    assert ProperNode(g, x) && ProperNode(g, y);
    var m := Min(g[x].level, g[y].level);
    if m >= TERMINAL_LEVEL then {Answer(g, op, x, y)}
    else
      CofactorBelow(g, x, m, false);
      CofactorBelow(g, y, m, false);
      CofactorBelow(g, x, m, true);
      CofactorBelow(g, y, m, true);
      {Answer(g, op, x, y)}
      + Answers(g, op, Cofactor(g, x, m, false), Cofactor(g, y, m, false))
      + Answers(g, op, Cofactor(g, x, m, true), Cofactor(g, y, m, true))
  }

  /** The cofactor functions of the answer that no node of the table denotes. */
  ghost function Missing(g: Graph, op: Op, x: Ptr, y: Ptr): set<Fun>
    requires WellFormed(g) && x in g && y in g
  {
    Answers(g, op, x, y) - Dens(g, g.Keys)
  }

  lemma CofactorsBelow(g: Graph, x: Ptr, y: Ptr, m: nat, value: bool)
    requires WellFormed(g) && x in g && y in g && m == Min(g[x].level, g[y].level) < TERMINAL_LEVEL
    ensures var cx, cy := Cofactor(g, x, m, value), Cofactor(g, y, m, value);
      cx in g && cy in g && m < g[cx].level <= UINT_MAX && m < g[cy].level <= UINT_MAX
  {
    CofactorBelow(g, x, m, value);
    CofactorBelow(g, y, m, value);
    assert ProperNode(g, Cofactor(g, x, m, value)) && ProperNode(g, Cofactor(g, y, m, value));
  }

  lemma AnswersUnfold(g: Graph, op: Op, x: Ptr, y: Ptr, m: nat)
    requires WellFormed(g) && x in g && y in g && m == Min(g[x].level, g[y].level)
    requires m < TERMINAL_LEVEL ==>
      && Cofactor(g, x, m, false) in g && Cofactor(g, y, m, false) in g
      && Cofactor(g, x, m, true) in g && Cofactor(g, y, m, true) in g
    ensures Answers(g, op, x, y) ==
      if m >= TERMINAL_LEVEL then {Answer(g, op, x, y)}
      else {Answer(g, op, x, y)}
           + Answers(g, op, Cofactor(g, x, m, false), Cofactor(g, y, m, false))
           + Answers(g, op, Cofactor(g, x, m, true), Cofactor(g, y, m, true))
  {
    hide WellFormed, Answer, Cofactor;
  }

  lemma AnswerExtends(g: Graph, h: Graph, op: Op, x: Ptr, y: Ptr)
    requires WellFormed(g) && WellFormed(h) && Extends(g, h) && x in g && y in g
    ensures x in h && y in h && h[x] == g[x] && h[y] == g[y] && Answer(h, op, x, y) == Answer(g, op, x, y)
    ensures g[x].level <= UINT_MAX && g[y].level <= UINT_MAX
  {
    assert ProperNode(g, x) && ProperNode(g, y);
    DenExtends(g, h, x);
    DenExtends(g, h, y);
  }

  /** What an operation needs does not depend on the nodes that were added meanwhile. */
  lemma {:induction false} AnswersExtend(g: Graph, h: Graph, op: Op, x: Ptr, y: Ptr)
    requires WellFormed(g) && WellFormed(h) && Extends(g, h) && x in g && y in g
    ensures x in h && y in h && Answers(g, op, x, y) == Answers(h, op, x, y)
    decreases UINT_MAX - Min(g[x].level, g[y].level)
  {
    hide WellFormed, Extends, Answers, Answer;
    AnswerExtends(g, h, op, x, y);
    var m := Min(g[x].level, g[y].level);
    if m < TERMINAL_LEVEL {
      CofactorsBelow(g, x, y, m, false);
      CofactorsBelow(g, x, y, m, true);
      AnswersExtend(g, h, op, Cofactor(g, x, m, false), Cofactor(g, y, m, false));
      AnswersExtend(g, h, op, Cofactor(g, x, m, true), Cofactor(g, y, m, true));
    }
    AnswersUnfold(g, op, x, y, m);
    AnswersUnfold(h, op, x, y, m);
  }

  lemma ReachSplits(g: Graph, r: Ptr, m: nat)
    requires WellFormed(g) && r in g && m <= g[r].level && m < TERMINAL_LEVEL
    ensures Cofactor(g, r, m, false) in g && Cofactor(g, r, m, true) in g
    ensures Reach(g, r) == {r} + Reach(g, Cofactor(g, r, m, false)) + Reach(g, Cofactor(g, r, m, true))
  {
    assert ProperNode(g, r);
  }

  lemma DensSplit(g: Graph, s: set<Ptr>, a: set<Ptr>, b: set<Ptr>, r: Ptr)
    requires WellFormed(g) && a <= g.Keys && b <= g.Keys && r in g && s == {r} + a + b
    ensures s <= g.Keys && Dens(g, s) == {Den(g, r)} + Dens(g, a) + Dens(g, b)
  {
    hide WellFormed;
  }

  /** A result is no higher in the order than both operands, constants aside. */
  lemma LevelOfAnswer(g: Graph, op: Op, x: Ptr, y: Ptr, r: Ptr)
    requires WellFormed(g) && x in g && y in g && IsResult(g, op, x, y, r)
    ensures r in g && Den(g, r) == Answer(g, op, x, y)
    ensures Min(g[x].level, g[y].level) < TERMINAL_LEVEL ==> Min(g[x].level, g[y].level) <= g[r].level
    ensures Min(g[x].level, g[y].level) >= TERMINAL_LEVEL ==> IsTerminal(g[r])
  {
    ResultDenotes(g, op, x, y, r);
    assert ProperNode(g, r);
    if !IsTerminal(g[r]) {
      ResultLevel(g, op, x, y, r);
    }
  }

  /** The nodes below the answer denote exactly the cofactor functions of the answer. */
  lemma {:induction false} ReachOfAnswer(g: Graph, op: Op, x: Ptr, y: Ptr, r: Ptr)
    requires WellFormed(g) && x in g && y in g && IsResult(g, op, x, y, r)
    ensures r in g && Answers(g, op, x, y) == Dens(g, Reach(g, r))
    decreases UINT_MAX - Min(g[x].level, g[y].level)
  {
    LevelOfAnswer(g, op, x, y, r);
    assert ProperNode(g, x) && ProperNode(g, y);
    var m := Min(g[x].level, g[y].level);
    if m < TERMINAL_LEVEL {
      hide WellFormed, IsResult, Dens, ProperNode, Reach, Den, Answer;
      ReachSplits(g, r, m);
      AnswerOnCofactors(g, op, x, y, r, m, false);
      AnswerOnCofactors(g, op, x, y, r, m, true);
      ReachOfAnswer(g, op, Cofactor(g, x, m, false), Cofactor(g, y, m, false), Cofactor(g, r, m, false));
      ReachOfAnswer(g, op, Cofactor(g, x, m, true), Cofactor(g, y, m, true), Cofactor(g, r, m, true));
      DensSplit(g, Reach(g, r), Reach(g, Cofactor(g, r, m, false)), Reach(g, Cofactor(g, r, m, true)), r);
    } else {
      assert Dens(g, {r}) == {Den(g, r)};
    }
  }

  lemma AnswerOnCofactors(g: Graph, op: Op, x: Ptr, y: Ptr, r: Ptr, m: nat, value: bool)
    requires WellFormed(g) && x in g && y in g && IsResult(g, op, x, y, r)
    requires m == Min(g[x].level, g[y].level) < TERMINAL_LEVEL && r in g && m <= g[r].level
    ensures Cofactor(g, x, m, value) in g && Cofactor(g, y, m, value) in g
    ensures m < g[Cofactor(g, x, m, value)].level <= UINT_MAX && m < g[Cofactor(g, y, m, value)].level <= UINT_MAX
    ensures IsResult(g, op, Cofactor(g, x, m, value), Cofactor(g, y, m, value), Cofactor(g, r, m, value))
  {
    CofactorBelow(g, x, m, value);
    CofactorBelow(g, y, m, value);
    ResultCofactor(g, op, x, y, r, m, value);
    assert ProperNode(g, Cofactor(g, x, m, value)) && ProperNode(g, Cofactor(g, y, m, value));
  }

  // ---- How many nodes that is

  /** The function of an operation on one pair of nodes. */
  ghost function PairAnswer(g: Graph, op: Op, q: (Ptr, Ptr)): Fun
    requires WellFormed(g) && q.0 in g && q.1 in g
  {
    Answer(g, op, q.0, q.1)
  }

  /** Every cofactor function of the answer is the answer on a pair of nodes below the operands. */
  lemma {:induction false} AnswersFromPairs(g: Graph, op: Op, x: Ptr, y: Ptr, xs: set<Ptr>, ys: set<Ptr>)
    requires WellFormed(g) && Closed(g, xs) && Closed(g, ys) && x in xs && y in ys
    ensures forall f :: f in Answers(g, op, x, y) ==> exists q :: q in Pairs(xs, ys) && PairAnswer(g, op, q) == f
    decreases UINT_MAX - Min(g[x].level, g[y].level)
  {
    hide WellFormed, Answers, Answer;
    AnswerExtends(g, g, op, x, y);
    assert (x, y) in Pairs(xs, ys) && PairAnswer(g, op, (x, y)) == Answer(g, op, x, y);
    var m := Min(g[x].level, g[y].level);
    if m < TERMINAL_LEVEL {
      CofactorsBelow(g, x, y, m, false);
      CofactorsBelow(g, x, y, m, true);
      AnswersFromPairs(g, op, Cofactor(g, x, m, false), Cofactor(g, y, m, false), xs, ys);
      AnswersFromPairs(g, op, Cofactor(g, x, m, true), Cofactor(g, y, m, true), xs, ys);
    }
    hide PairAnswer;
    AnswersUnfold(g, op, x, y, m);
  }

  lemma {:induction false} FunsBound(g: Graph, op: Op, fs: set<Fun>, pairs: set<(Ptr, Ptr)>)
    requires WellFormed(g) && forall q :: q in pairs ==> q.0 in g && q.1 in g
    requires forall f :: f in fs ==> exists q :: q in pairs && PairAnswer(g, op, q) == f
    ensures |fs| <= |pairs|
    decreases fs
  {
    hide WellFormed, Answer;
    if fs != {} {
      var f :| f in fs;
      var q :| q in pairs && PairAnswer(g, op, q) == f;
      forall k | k in fs - {f} ensures exists s :: s in pairs - {q} && PairAnswer(g, op, s) == k {
        var s :| s in pairs && PairAnswer(g, op, s) == k;
        assert s in pairs - {q};
      }
      FunsBound(g, op, fs - {f}, pairs - {q});
    }
  }

  /** There are at most as many of them as pairs of operand nodes. */
  lemma AnswersBound(g: Graph, op: Op, x: Ptr, y: Ptr)
    requires WellFormed(g) && x in g && y in g
    ensures |Missing(g, op, x, y)| <= |Answers(g, op, x, y)| <= |Reach(g, x)| * |Reach(g, y)|
  {
    ReachIsClosed(g, x);
    ReachIsClosed(g, y);
    AnswersFromPairs(g, op, x, y, Reach(g, x), Reach(g, y));
    FunsBound(g, op, Answers(g, op, x, y), Pairs(Reach(g, x), Reach(g, y)));
    PairsSize(Reach(g, x), Reach(g, y));
    SubsetSize(Missing(g, op, x, y), Answers(g, op, x, y));
  }

  /** The diagram of a result is at most as large as the product of the operands' diagrams. */
  lemma ResultSize(g: Graph, op: Op, x: Ptr, y: Ptr, r: Ptr)
    requires WellFormed(g) && x in g && y in g && IsResult(g, op, x, y, r)
    ensures |Reach(g, r)| == |Answers(g, op, x, y)| <= |Reach(g, x)| * |Reach(g, y)|
  {
    hide IsResult, Reach;
    ReachOfAnswer(g, op, x, y, r);
    DensSize(g, Reach(g, r));
    AnswersBound(g, op, x, y);
  }

  // ---- What an operation has done

  /** All nodes that were added denote cofactor functions of the answer. */
  ghost predicate OnlyAnswers(g: Graph, h: Graph, op: Op, x: Ptr, y: Ptr)
    requires WellFormed(g) && WellFormed(h) && x in g && y in g
  {
    forall n :: n in h && n !in g ==> Den(h, n) in Answers(g, op, x, y)
  }

  /**
    How an operation on the table `g` ends, in the table `h` with `free` free
    slots. It has the answer and has added exactly the nodes below it, or it
    stands before a node that is still missing and there is no slot for it.
   */
  ghost predicate Outcome(g: Graph, h: Graph, free: nat, op: Op, x: Ptr, y: Ptr, r: Ptr)
    requires WellFormed(g) && WellFormed(h) && x in g && y in g
  {
    && x in h && y in h && Extends(g, h) && OnlyAnswers(g, h, op, x, y)
    && if r == NULL then free == 0 && Missing(h, op, x, y) != {}
       else IsResult(h, op, x, y, r) && h.Keys == g.Keys + Reach(h, r)
  }

  /** An answer that is a node already, by a shortcut or from the cache, adds nothing. */
  lemma OutcomeKnown(g: Graph, free: nat, op: Op, x: Ptr, y: Ptr, r: Ptr)
    requires WellFormed(g) && x in g && y in g && IsResult(g, op, x, y, r)
    ensures Outcome(g, g, free, op, x, y, r)
  {
    assert r in g && NULL !in g;
  }

  /** The two parts an operation combines, and what computing them has added. */
  ghost predicate Parts(g: Graph, h: Graph, op: Op, x: Ptr, y: Ptr, m: nat, low: Ptr, high: Ptr)
    requires WellFormed(g) && WellFormed(h) && x in g && y in g
  {
    && x in h && y in h && Extends(g, h) && OnlyAnswers(g, h, op, x, y) && low in h && high in h
    && Expanded(h, op, x, y, m, low, high) && m == Min(h[x].level, h[y].level)
    && h.Keys == g.Keys + Reach(h, low) + Reach(h, high)
  }

  lemma OnlyAnswersCompose(g0: Graph, g1: Graph, g2: Graph, op: Op, x: Ptr, y: Ptr, m: nat)
    requires WellFormed(g0) && WellFormed(g1) && WellFormed(g2) && Extends(g0, g1) && Extends(g1, g2)
    requires x in g0 && y in g0 && x in g1 && y in g1 && m == Min(g0[x].level, g0[y].level) < TERMINAL_LEVEL
    requires var cx, cy := Cofactor(g0, x, m, false), Cofactor(g0, y, m, false);
      cx in g0 && cy in g0 && OnlyAnswers(g0, g1, op, cx, cy)
    requires var cx, cy := Cofactor(g0, x, m, true), Cofactor(g0, y, m, true);
      cx in g1 && cy in g1 && (OnlyAnswers(g1, g2, op, cx, cy) || g2 == g1)
    ensures OnlyAnswers(g0, g2, op, x, y)
  {
    CofactorsBelow(g0, x, y, m, true);
    var cx, cy := Cofactor(g0, x, m, true), Cofactor(g0, y, m, true);
    AnswersUnfold(g0, op, x, y, m);
    AnswersExtend(g0, g1, op, cx, cy);
    hide Answers;
    forall n | n in g2 && n !in g0 ensures Den(g2, n) in Answers(g0, op, x, y) {
      if n in g1 {
        DenExtends(g1, g2, n);
      }
    }
  }

  /** What is missing for a part is missing for the whole. */
  lemma MissingInParts(h: Graph, op: Op, x: Ptr, y: Ptr, m: nat, value: bool)
    requires WellFormed(h) && x in h && y in h && m == Min(h[x].level, h[y].level) < TERMINAL_LEVEL
    ensures var cx, cy := Cofactor(h, x, m, value), Cofactor(h, y, m, value);
      cx in h && cy in h && Missing(h, op, cx, cy) <= Missing(h, op, x, y)
  {
    CofactorsBelow(h, x, y, m, false);
    CofactorsBelow(h, x, y, m, true);
    AnswersUnfold(h, op, x, y, m);
    hide Answers, Dens;
  }

  /** The first recursive call found no slot. */
  lemma StopsLow(g0: Graph, g1: Graph, free: nat, op: Op, x: Ptr, y: Ptr, m: nat)
    requires WellFormed(g0) && WellFormed(g1) && x in g0 && y in g0
    requires m == Min(g0[x].level, g0[y].level) < TERMINAL_LEVEL
    requires var cx, cy := Cofactor(g0, x, m, false), Cofactor(g0, y, m, false);
      cx in g0 && cy in g0 && Outcome(g0, g1, free, op, cx, cy, NULL)
    ensures Outcome(g0, g1, free, op, x, y, NULL)
  {
    hide WellFormed, OnlyAnswers, Missing, Reach, IsResult;
    CofactorsBelow(g0, x, y, m, true);
    OnlyAnswersCompose(g0, g1, g1, op, x, y, m);
    MissingInParts(g1, op, x, y, m, false);
  }

  /** The second one did. */
  lemma StopsHigh(g0: Graph, g1: Graph, g2: Graph, free1: nat, free: nat, op: Op, x: Ptr, y: Ptr, m: nat, low: Ptr)
    requires WellFormed(g0) && WellFormed(g1) && WellFormed(g2) && x in g0 && y in g0
    requires m == Min(g0[x].level, g0[y].level) < TERMINAL_LEVEL
    requires var cx, cy := Cofactor(g0, x, m, false), Cofactor(g0, y, m, false);
      cx in g0 && cy in g0 && Outcome(g0, g1, free1, op, cx, cy, low)
    requires var cx, cy := Cofactor(g0, x, m, true), Cofactor(g0, y, m, true);
      cx in g1 && cy in g1 && Outcome(g1, g2, free, op, cx, cy, NULL)
    ensures Outcome(g0, g2, free, op, x, y, NULL)
  {
    hide WellFormed, OnlyAnswers, Missing, Reach, IsResult;
    OnlyAnswersCompose(g0, g1, g2, op, x, y, m);
    MissingInParts(g2, op, x, y, m, true);
  }

  /** Both recursive calls have answers. */
  lemma BothParts(g0: Graph, g1: Graph, g2: Graph, free1: nat, free2: nat, op: Op, x: Ptr, y: Ptr, m: nat, low: Ptr,
      high: Ptr)
    requires WellFormed(g0) && WellFormed(g1) && WellFormed(g2) && x in g0 && y in g0
    requires m == Min(g0[x].level, g0[y].level) < TERMINAL_LEVEL && low != NULL && high != NULL
    requires var cx, cy := Cofactor(g0, x, m, false), Cofactor(g0, y, m, false);
      cx in g0 && cy in g0 && Outcome(g0, g1, free1, op, cx, cy, low)
    requires var cx, cy := Cofactor(g0, x, m, true), Cofactor(g0, y, m, true);
      cx in g1 && cy in g1 && Outcome(g1, g2, free2, op, cx, cy, high)
    ensures Parts(g0, g2, op, x, y, m, low, high)
  {
    hide WellFormed, OnlyAnswers, Missing, Reach;
    OnlyAnswersCompose(g0, g1, g2, op, x, y, m);
    assert low in g1;
    ReachExtends(g1, g2, low);
    ResultStable(g1, g2, op, Cofactor(g0, x, m, false), Cofactor(g0, y, m, false), low);
    hide IsResult;
    assert Expanded(g2, op, x, y, m, low, high);
  }

  lemma LevelOfParts(h: Graph, op: Op, x: Ptr, y: Ptr, m: nat, low: Ptr, high: Ptr)
    requires WellFormed(h) && x in h && y in h && Expanded(h, op, x, y, m, low, high)
    ensures m < TERMINAL_LEVEL && low != NULL && high != NULL && low in h && high in h
    ensures low != high ==> ProperKey(h, Cell(m, low, high))
  {
    if low != high { CombineKey(h, op, x, y, m, low, high); }
  }

  /** The parts coincide: their node is the answer. */
  lemma CombinesSame(g: Graph, h: Graph, free: nat, op: Op, x: Ptr, y: Ptr, m: nat, low: Ptr)
    requires WellFormed(g) && WellFormed(h) && x in g && y in g && Parts(g, h, op, x, y, m, low, low)
    ensures Outcome(g, h, free, op, x, y, low)
  {
    hide OnlyAnswers, Missing, Reach, IsResult, Expanded;
    CombineIsResult(h, op, x, y, m, low, low, low);
  }

  lemma ReachOfNode(h: Graph, r: Ptr)
    requires WellFormed(h) && r in h && !IsTerminal(h[r])
    ensures h[r].low in h && h[r].high in h && Reach(h, r) == {r} + Reach(h, h[r].low) + Reach(h, h[r].high)
  {
    assert ProperNode(h, r);
  }

  /** A node with the combined key exists. */
  lemma CombinesFound(g: Graph, h: Graph, free: nat, op: Op, x: Ptr, y: Ptr, m: nat, low: Ptr, high: Ptr, r: Ptr)
    requires WellFormed(g) && WellFormed(h) && x in g && y in g && Parts(g, h, op, x, y, m, low, high)
    requires r in h && h[r] == Cell(m, low, high) && m < TERMINAL_LEVEL
    ensures Outcome(g, h, free, op, x, y, r)
  {
    hide OnlyAnswers, Missing, Reach, IsResult, Expanded;
    CombineIsResult(h, op, x, y, m, low, high, r);
    ReachOfNode(h, r);
    assert r != NULL;
    assert forall p :: p in h.Keys <==> p in g.Keys + Reach(h, r);
  }

  /** A node with the combined key was added. */
  lemma CombinesNew(g: Graph, h: Graph, free: nat, op: Op, x: Ptr, y: Ptr, m: nat, low: Ptr, high: Ptr, r: Ptr)
    requires WellFormed(g) && WellFormed(h) && x in g && y in g && Parts(g, h, op, x, y, m, low, high)
    requires r !in h && r != NULL && low != high && m < TERMINAL_LEVEL
    requires forall p :: p in h ==> h[p] != Cell(m, low, high)
    ensures WellFormed(h[r := Cell(m, low, high)]) && Outcome(g, h[r := Cell(m, low, high)], free, op, x, y, r)
  {
    var k := h[r := Cell(m, low, high)];
    hide WellFormed, OnlyAnswers, Missing, Reach, IsResult, Expanded;
    NewNodeIsResult(h, op, x, y, m, low, high, r);
    ReachOfNode(k, r);
    ReachExtends(h, k, low);
    ReachExtends(h, k, high);
    OnlyAnswersGrow(g, h, k, op, x, y, r);
    assert forall p :: p in k.Keys <==> p in g.Keys + Reach(k, r);
  }

  lemma OnlyAnswersGrow(g: Graph, h: Graph, k: Graph, op: Op, x: Ptr, y: Ptr, r: Ptr)
    requires WellFormed(g) && WellFormed(h) && WellFormed(k) && x in g && y in g && Extends(g, h) && Extends(h, k)
    requires OnlyAnswers(g, h, op, x, y) && k.Keys == h.Keys + {r}
    requires x in k && y in k && IsResult(k, op, x, y, r)
    ensures OnlyAnswers(g, k, op, x, y)
  {
    AnswersExtend(g, k, op, x, y);
    ResultDenotes(k, op, x, y, r);
    forall n | n in k && n !in g ensures Den(k, n) in Answers(g, op, x, y) {
      if n != r { DenExtends(h, k, n); }
    }
  }

  /** The combined key is unknown and there is no slot: the answer itself is missing. */
  lemma CombinesStop(g: Graph, h: Graph, op: Op, x: Ptr, y: Ptr, m: nat, low: Ptr, high: Ptr)
    requires WellFormed(g) && WellFormed(h) && x in g && y in g && Parts(g, h, op, x, y, m, low, high)
    requires low != high && forall p :: p in h ==> h[p] != Cell(m, low, high)
    ensures Outcome(g, h, 0, op, x, y, NULL)
  {
    hide OnlyAnswers, IsResult, Expanded, WellFormed;
    var r := FreshPtr(h.Keys);
    var k := h[r := Cell(m, low, high)];
    NewNodeIsResult(h, op, x, y, m, low, high, r);
    AnswerIsNew(h, k, op, x, y, r);
  }

  lemma AnswerIsNew(h: Graph, k: Graph, op: Op, x: Ptr, y: Ptr, r: Ptr)
    requires WellFormed(h) && WellFormed(k) && Extends(h, k) && x in h && y in h && x in k && y in k
    requires r !in h && IsResult(k, op, x, y, r)
    ensures Answer(h, op, x, y) in Missing(h, op, x, y)
  {
    AnswerExtends(h, k, op, x, y);
    ResultDenotes(k, op, x, y, r);
    forall p | p in h ensures Den(h, p) != Answer(h, op, x, y) {
      DenExtends(h, k, p);
      Canonicity(k, p, r);
    }
    assert Answer(h, op, x, y) in Answers(h, op, x, y);
  }

  /** The node of the answer has the combined key, unless the parts coincide. */
  lemma AnswerKey(g: Graph, op: Op, x: Ptr, y: Ptr, m: nat, low: Ptr, high: Ptr, r: Ptr)
    requires WellFormed(g) && x in g && y in g && Expanded(g, op, x, y, m, low, high) && low != high
    requires m == Min(g[x].level, g[y].level) && IsResult(g, op, x, y, r)
    ensures r in g && g[r] == Cell(m, low, high)
  {
    LevelOfAnswer(g, op, x, y, r);
    AnswerOnCofactors(g, op, x, y, r, m, false);
    AnswerOnCofactors(g, op, x, y, r, m, true);
    hide IsResult, WellFormed;
    ResultIsUnique(g, op, Cofactor(g, x, m, false), Cofactor(g, y, m, false), Cofactor(g, r, m, false), low);
    ResultIsUnique(g, op, Cofactor(g, x, m, true), Cofactor(g, y, m, true), Cofactor(g, r, m, true), high);
  }

  // ---- The count

  /** Adding nodes that the operation needs leaves that many fewer to add. */
  lemma MissingShrinks(g: Graph, h: Graph, op: Op, x: Ptr, y: Ptr)
    requires WellFormed(g) && WellFormed(h) && x in g && y in g && x in h && y in h && Extends(g, h)
    requires OnlyAnswers(g, h, op, x, y)
    ensures |Missing(g, op, x, y)| == |h| - |g| + |Missing(h, op, x, y)|
  {
    AnswersExtend(g, h, op, x, y);
    NewFunctions(g, h);
    var added := h.Keys - g.Keys;
    hide Answers, Dens, WellFormed;
    forall f | f in Dens(h, added) ensures f in Answers(g, op, x, y) {
      var n := NodeOf(h, added, f);
    }
    SplitSize(Answers(g, op, x, y), Dens(g, g.Keys), Dens(h, added));
  }

  lemma NodeOf(h: Graph, s: set<Ptr>, f: Fun) returns (n: Ptr)
    requires WellFormed(h) && s <= h.Keys && f in Dens(h, s)
    ensures n in s && n in h && Den(h, n) == f
  {
    n :| n in s && Den(h, n) == f;
  }

  /** The functions of the nodes that were added are new, and as many as those nodes. */
  lemma NewFunctions(g: Graph, h: Graph)
    requires WellFormed(g) && WellFormed(h) && Extends(g, h)
    ensures var added := h.Keys - g.Keys;
      && Dens(h, h.Keys) == Dens(g, g.Keys) + Dens(h, added) && Dens(h, added) !! Dens(g, g.Keys)
      && |Dens(h, added)| == |h| - |g|
  {
    hide *;
    var added := h.Keys - g.Keys;
    SameFunctions(g, h);
    NoneDenoted(h, g.Keys, added);
    DensUnion(h, g.Keys, added);
    assert h.Keys == g.Keys + added;
    DensSize(h, added);
    KeysAdded(g, h);
  }

  lemma KeysAdded(g: Graph, h: Graph)
    requires g.Keys <= h.Keys
    ensures |h.Keys - g.Keys| == |h| - |g|
  {
    hide *;
    SubsetSize(g.Keys, h.Keys);
    assert |g| == |g.Keys| && |h| == |h.Keys|;
  }

  lemma SameFunctions(g: Graph, h: Graph)
    requires WellFormed(g) && WellFormed(h) && Extends(g, h)
    ensures g.Keys <= h.Keys && Dens(h, g.Keys) == Dens(g, g.Keys)
  {
    KeysExtend(g, h);
    forall p | p in g ensures Den(h, p) == Den(g, p) { DenExtends(g, h, p); }
    hide WellFormed, Den;
  }

  lemma NoneDenoted(h: Graph, a: set<Ptr>, b: set<Ptr>)
    requires WellFormed(h) && a <= h.Keys && b <= h.Keys && a !! b
    ensures Dens(h, b) !! Dens(h, a)
  {
    forall n, p | n in b && p in a ensures Den(h, p) != Den(h, n) { Canonicity(h, p, n); }
    hide WellFormed, Den;
  }

  lemma DensUnion(h: Graph, a: set<Ptr>, b: set<Ptr>)
    requires WellFormed(h) && a <= h.Keys && b <= h.Keys
    ensures Dens(h, a + b) == Dens(h, a) + Dens(h, b)
  {
    hide WellFormed, Den;
  }

  lemma SplitSize(all: set<Fun>, known: set<Fun>, added: set<Fun>)
    requires added <= all && added !! known
    ensures |all - known| == |added| + |all - (known + added)|
  {
    assert all - known == added + (all - (known + added));
  }

  /**
    The exact demand: an operation comes to an answer if and only if the slots
    that were free cover the cofactor functions of the answer that were
    missing, and it then takes exactly one slot for each.
   */
  lemma OutcomeCount(g: Graph, h: Graph, free0: nat, free: nat, op: Op, x: Ptr, y: Ptr, r: Ptr)
    requires WellFormed(g) && WellFormed(h) && x in g && y in g && Outcome(g, h, free, op, x, y, r)
    requires free + |h| == free0 + |g|
    ensures r == NULL <==> free0 < |Missing(g, op, x, y)|
    ensures r != NULL ==> |h| - |g| == |Missing(g, op, x, y)|
  {
    MissingShrinks(g, h, op, x, y);
    if r != NULL {
      ReachOfAnswer(h, op, x, y, r);
      assert Missing(h, op, x, y) == {};
    }
  }

  // ---- One slot short

  /** The function of one part of the answer, on the operands' cofactors. */
  ghost function PartAnswer(g: Graph, op: Op, x: Ptr, y: Ptr, value: bool): Fun
    requires WellFormed(g) && x in g && y in g && Min(g[x].level, g[y].level) < TERMINAL_LEVEL
  {
    var m := Min(g[x].level, g[y].level);
    CofactorsBelow(g, x, y, m, value);
    Answer(g, op, Cofactor(g, x, m, value), Cofactor(g, y, m, value))
  }

  /** The operands are split at `m`, and the two parts of the answer differ. */
  ghost predicate Parting(g: Graph, op: Op, x: Ptr, y: Ptr, m: nat)
    requires WellFormed(g) && x in g && y in g
  {
    && m == Min(g[x].level, g[y].level) < TERMINAL_LEVEL
    && PartAnswer(g, op, x, y, false) != PartAnswer(g, op, x, y, true)
  }

  lemma PartingAt(g: Graph, op: Op, x: Ptr, y: Ptr, m: nat)
    requires WellFormed(g) && x in g && y in g && Parting(g, op, x, y, m)
    ensures m == Min(g[x].level, g[y].level) < TERMINAL_LEVEL
  {
  }

  /** Nodes of `s` denote both parts. */
  ghost predicate PartsIn(g: Graph, op: Op, x: Ptr, y: Ptr, s: set<Ptr>)
    requires WellFormed(g) && x in g && y in g && s <= g.Keys
  {
    && Min(g[x].level, g[y].level) < TERMINAL_LEVEL
    && PartAnswer(g, op, x, y, false) in Dens(g, s) && PartAnswer(g, op, x, y, true) in Dens(g, s)
  }

  /** The functions a part is built from do not look at the variable that was split. */
  lemma {:induction false} AnswersIgnore(g: Graph, op: Op, x: Ptr, y: Ptr, f: Fun, env: Env, env': Env, m: nat)
    requires WellFormed(g) && x in g && y in g && f in Answers(g, op, x, y)
    requires m < g[x].level && m < g[y].level && m < TERMINAL_LEVEL
    requires forall v: nat :: v != m ==> (v in env <==> v in env')
    ensures env in f <==> env' in f
    decreases UINT_MAX - Min(g[x].level, g[y].level)
  {
    hide WellFormed, Answers;
    EvalIgnores(g, x, env, env', m);
    EvalIgnores(g, y, env, env', m);
    var l := Min(g[x].level, g[y].level);
    if l < TERMINAL_LEVEL {
      CofactorsBelow(g, x, y, l, false);
      CofactorsBelow(g, x, y, l, true);
      AnswersUnfold(g, op, x, y, l);
      if f in Answers(g, op, Cofactor(g, x, l, false), Cofactor(g, y, l, false)) {
        AnswersIgnore(g, op, Cofactor(g, x, l, false), Cofactor(g, y, l, false), f, env, env', m);
      } else if f in Answers(g, op, Cofactor(g, x, l, true), Cofactor(g, y, l, true)) {
        AnswersIgnore(g, op, Cofactor(g, x, l, true), Cofactor(g, y, l, true), f, env, env', m);
      }
    } else {
      AnswersUnfold(g, op, x, y, l);
    }
  }

  /** The answer takes the value of the part that the assignment chooses. */
  lemma AnswerSplits(g: Graph, op: Op, x: Ptr, y: Ptr, env: Env)
    requires WellFormed(g) && x in g && y in g && Min(g[x].level, g[y].level) < TERMINAL_LEVEL
    ensures var m := Min(g[x].level, g[y].level);
      env in Answer(g, op, x, y) <==> env in PartAnswer(g, op, x, y, m in env)
  {
    var m := Min(g[x].level, g[y].level);
    EvalCofactor(g, x, m, env);
    EvalCofactor(g, y, m, env);
  }

  /** When the parts differ, the answer is none of the functions they are built from. */
  lemma RootApart(g: Graph, op: Op, x: Ptr, y: Ptr, m: nat, value: bool)
    requires WellFormed(g) && x in g && y in g && Parting(g, op, x, y, m)
    ensures Cofactor(g, x, m, value) in g && Cofactor(g, y, m, value) in g
    ensures Answer(g, op, x, y) !in Answers(g, op, Cofactor(g, x, m, value), Cofactor(g, y, m, value))
  {
    CofactorsBelow(g, x, y, m, false);
    CofactorsBelow(g, x, y, m, true);
    var f := Answer(g, op, x, y);
    var cx, cy := Cofactor(g, x, m, value), Cofactor(g, y, m, value);
    if f in Answers(g, op, cx, cy) {
      var low, high := PartAnswer(g, op, x, y, false), PartAnswer(g, op, x, y, true);
      var env: Env :| env in low <==> env !in high;
      var off, on := env - iset{m}, env + iset{m};
      AnswerSplits(g, op, x, y, off);
      AnswerSplits(g, op, x, y, on);
      PartIgnores(g, op, x, y, m, false, env, off);
      PartIgnores(g, op, x, y, m, true, env, on);
      AnswersIgnore(g, op, cx, cy, f, off, on, m);
      assert false;
    }
  }

  lemma PartIgnores(g: Graph, op: Op, x: Ptr, y: Ptr, m: nat, value: bool, env: Env, env': Env)
    requires WellFormed(g) && x in g && y in g && m == Min(g[x].level, g[y].level) < TERMINAL_LEVEL
    requires forall v: nat :: v != m ==> (v in env <==> v in env')
    ensures env in PartAnswer(g, op, x, y, value) <==> env' in PartAnswer(g, op, x, y, value)
  {
    CofactorsBelow(g, x, y, m, value);
    EvalIgnores(g, Cofactor(g, x, m, value), env, env', m);
    EvalIgnores(g, Cofactor(g, y, m, value), env, env', m);
  }

  /** When a node denotes the answer, nothing is missing. */
  lemma NothingMissing(g: Graph, op: Op, x: Ptr, y: Ptr, r: Ptr)
    requires WellFormed(g) && x in g && y in g && IsResult(g, op, x, y, r)
    ensures Missing(g, op, x, y) == {}
  {
    ReachOfAnswer(g, op, x, y, r);
    hide Answers, IsResult, WellFormed, Reach;
    assert Dens(g, Reach(g, r)) <= Dens(g, g.Keys);
  }

  /** If anything is missing, the answer itself is. */
  lemma RootMissing(g: Graph, op: Op, x: Ptr, y: Ptr)
    requires WellFormed(g) && x in g && y in g && Missing(g, op, x, y) != {}
    ensures Answer(g, op, x, y) in Missing(g, op, x, y)
  {
    AnswerIsAnswer(g, op, x, y);
    hide Answers, WellFormed, IsResult;
    if Answer(g, op, x, y) in Dens(g, g.Keys) {
      var r := NodeOf(g, g.Keys, Answer(g, op, x, y));
      ResultDenotes(g, op, x, y, r);
      NothingMissing(g, op, x, y, r);
    }
  }

  lemma AnswerIsAnswer(g: Graph, op: Op, x: Ptr, y: Ptr)
    requires WellFormed(g) && x in g && y in g
    ensures Answer(g, op, x, y) in Answers(g, op, x, y)
  {
  }

  /** So a part always misses fewer functions than the whole, and the rest is the answer when both are known. */
  lemma PartMissesLess(g: Graph, op: Op, x: Ptr, y: Ptr, m: nat, value: bool)
    requires WellFormed(g) && x in g && y in g && Parting(g, op, x, y, m) && Missing(g, op, x, y) != {}
    ensures Cofactor(g, x, m, value) in g && Cofactor(g, y, m, value) in g
    ensures |Missing(g, op, Cofactor(g, x, m, value), Cofactor(g, y, m, value))| < |Missing(g, op, x, y)|
  {
    MissingInParts(g, op, x, y, m, value);
    RootApart(g, op, x, y, m, value);
    RootMissing(g, op, x, y);
    var part, all := Missing(g, op, Cofactor(g, x, m, value), Cofactor(g, y, m, value)), Missing(g, op, x, y);
    hide Answers, Dens, Parting, Answer;
    assert Answer(g, op, x, y) !in part;
    SubsetSize(part, all - {Answer(g, op, x, y)});
  }

  /** A part that has been made leaves the operation as short as it was. */
  lemma PartMade(g: Graph, h: Graph, op: Op, x: Ptr, y: Ptr, m: nat, value: bool)
    requires WellFormed(g) && WellFormed(h) && Extends(g, h) && x in g && y in g && Parting(g, op, x, y, m)
    requires Cofactor(g, x, m, value) in g && Cofactor(g, y, m, value) in g
    requires OnlyAnswers(g, h, op, Cofactor(g, x, m, value), Cofactor(g, y, m, value))
    ensures x in h && y in h && Parting(h, op, x, y, m)
    ensures |Missing(g, op, x, y)| == |h| - |g| + |Missing(h, op, x, y)|
  {
    PartingExtends(g, h, op, x, y, m);
    CofactorsBelow(g, x, y, m, false);
    CofactorsBelow(g, x, y, m, true);
    AnswersUnfold(g, op, x, y, m);
    hide Answers, WellFormed, Missing;
    assert OnlyAnswers(g, h, op, x, y);
    MissingShrinks(g, h, op, x, y);
  }

  lemma OnlyRootMissing(g: Graph, op: Op, x: Ptr, y: Ptr, m: nat, low: Ptr, high: Ptr)
    requires WellFormed(g) && x in g && y in g && m == Min(g[x].level, g[y].level)
    requires Expanded(g, op, x, y, m, low, high)
    ensures Missing(g, op, x, y) <= {Answer(g, op, x, y)}
  {
    ReachOfAnswer(g, op, Cofactor(g, x, m, false), Cofactor(g, y, m, false), low);
    ReachOfAnswer(g, op, Cofactor(g, x, m, true), Cofactor(g, y, m, true), high);
    AnswersUnfold(g, op, x, y, m);
    hide Answers, IsResult, WellFormed, Reach, Answer;
  }

  /** The parts are those of the larger table, too. */
  lemma PartingExtends(g: Graph, h: Graph, op: Op, x: Ptr, y: Ptr, m: nat)
    requires WellFormed(g) && WellFormed(h) && Extends(g, h) && x in g && y in g && Parting(g, op, x, y, m)
    ensures x in h && y in h && Parting(h, op, x, y, m)
    ensures PartAnswer(h, op, x, y, false) == PartAnswer(g, op, x, y, false)
    ensures PartAnswer(h, op, x, y, true) == PartAnswer(g, op, x, y, true)
  {
    CofactorsBelow(g, x, y, m, false);
    CofactorsBelow(g, x, y, m, true);
    AnswerExtends(g, h, op, Cofactor(g, x, m, false), Cofactor(g, y, m, false));
    AnswerExtends(g, h, op, Cofactor(g, x, m, true), Cofactor(g, y, m, true));
    hide WellFormed, Answer;
  }

  /** Both parts are there and the operation is still short: then it lacks just its own node. */
  lemma OnlyRootLeft(g: Graph, h: Graph, op: Op, x: Ptr, y: Ptr, m: nat, low: Ptr, high: Ptr)
    requires WellFormed(g) && WellFormed(h) && x in g && y in g && Parting(g, op, x, y, m)
    requires Parts(g, h, op, x, y, m, low, high) && Missing(h, op, x, y) != {}
    ensures x in h && y in h && |Missing(h, op, x, y)| == 1 && low != high
    ensures Expanded(h, op, x, y, m, low, high) && low in h && high in h && ProperKey(h, Cell(m, low, high))
    ensures forall p :: p in h ==> h[p] != Cell(m, low, high)
    ensures Den(h, low) == PartAnswer(g, op, x, y, false) && Den(h, high) == PartAnswer(g, op, x, y, true)
  {
    hide Missing, Reach, OnlyAnswers, WellFormed;
    PartingExtends(g, h, op, x, y, m);
    ResultDenotes(h, op, Cofactor(h, x, m, false), Cofactor(h, y, m, false), low);
    ResultDenotes(h, op, Cofactor(h, x, m, true), Cofactor(h, y, m, true), high);
    CombineKey(h, op, x, y, m, low, high);
    OnlyRootMissing(h, op, x, y, m, low, high);
    SubsetSize(Missing(h, op, x, y), {Answer(h, op, x, y)});
    forall p | p in h ensures h[p] != Cell(m, low, high) {
      if h[p] == Cell(m, low, high) {
        CombineIsResult(h, op, x, y, m, low, high, p);
        NothingMissing(h, op, x, y, p);
      }
    }
  }

  /** The parts' nodes are kept exactly when their functions are denoted by kept nodes. */
  lemma PartKept(g: Graph, h: Graph, kept: set<Ptr>, f: Fun, p: Ptr)
    requires WellFormed(g) && WellFormed(h) && Extends(g, h) && kept <= g.Keys && p in h && Den(h, p) == f
    ensures p in kept <==> f in Dens(g, kept)
  {
    if p in kept {
      DenExtends(g, h, p);
    } else if f in Dens(g, kept) {
      var q := NodeOf(g, kept, f);
      DenExtends(g, h, q);
      Canonicity(h, p, q);
    }
  }

  // ---- A part that has to be made before the other one

  /** The parts differ, each lacks just its own node, and the second one's parts differ again. */
  ghost predicate PartsApart(g: Graph, op: Op, x: Ptr, y: Ptr)
    requires WellFormed(g) && x in g && y in g
  {
    var m := Min(g[x].level, g[y].level);
    && Parting(g, op, x, y, m)
    && (CofactorsBelow(g, x, y, m, false);
        |Missing(g, op, Cofactor(g, x, m, false), Cofactor(g, y, m, false))| == 1)
    && (CofactorsBelow(g, x, y, m, true);
        LacksItself(g, op, Cofactor(g, x, m, true), Cofactor(g, y, m, true)))
  }

  /** Only the answer's own node is missing, and its parts differ. */
  ghost predicate LacksItself(g: Graph, op: Op, x: Ptr, y: Ptr)
    requires WellFormed(g) && x in g && y in g
  {
    Parting(g, op, x, y, Min(g[x].level, g[y].level)) && |Missing(g, op, x, y)| == 1
  }

  lemma OneMissing(g: Graph, op: Op, x: Ptr, y: Ptr)
    requires WellFormed(g) && x in g && y in g && |Missing(g, op, x, y)| == 1
    ensures Missing(g, op, x, y) == {Answer(g, op, x, y)}
  {
    RootMissing(g, op, x, y);
    hide Missing, Answer;
    assert |Missing(g, op, x, y) - {Answer(g, op, x, y)}| == 0;
  }

  /** Then nodes for its parts are there. */
  lemma PartsKnown(g: Graph, op: Op, x: Ptr, y: Ptr, value: bool)
    requires WellFormed(g) && x in g && y in g && LacksItself(g, op, x, y)
    ensures PartAnswer(g, op, x, y, value) in Dens(g, g.Keys)
  {
    var m := Min(g[x].level, g[y].level);
    OneMissing(g, op, x, y);
    RootApart(g, op, x, y, m, value);
    CofactorsBelow(g, x, y, m, false);
    CofactorsBelow(g, x, y, m, true);
    AnswersUnfold(g, op, x, y, m);
    AnswerIsAnswer(g, op, Cofactor(g, x, m, value), Cofactor(g, y, m, value));
    hide Answers, Answer, Dens;
  }

  lemma SplitsApart(g: Graph, op: Op, x: Ptr, y: Ptr)
    requires WellFormed(g) && x in g && y in g && PartsApart(g, op, x, y)
    ensures var m := Min(g[x].level, g[y].level);
      && m < TERMINAL_LEVEL && Parting(g, op, x, y, m)
      && Cofactor(g, x, m, false) in g && Cofactor(g, y, m, false) in g
      && |Missing(g, op, Cofactor(g, x, m, false), Cofactor(g, y, m, false))| == 1
      && Cofactor(g, x, m, true) in g && Cofactor(g, y, m, true) in g
      && LacksItself(g, op, Cofactor(g, x, m, true), Cofactor(g, y, m, true))
  {
    hide Missing, LacksItself;
    CofactorsBelow(g, x, y, Min(g[x].level, g[y].level), false);
    CofactorsBelow(g, x, y, Min(g[x].level, g[y].level), true);
  }

  lemma WholeMisses(g: Graph, op: Op, x: Ptr, y: Ptr)
    requires WellFormed(g) && x in g && y in g && PartsApart(g, op, x, y)
    ensures Missing(g, op, x, y) != {}
  {
    var m := Min(g[x].level, g[y].level);
    MissingInParts(g, op, x, y, m, false);
    hide Missing, Parting;
    assert Missing(g, op, Cofactor(g, x, m, false), Cofactor(g, y, m, false)) != {};
  }

  /** Making the first part's node adds that node only. */
  lemma FirstPartAdds(g: Graph, h: Graph, op: Op, x: Ptr, y: Ptr, r: Ptr)
    requires WellFormed(g) && WellFormed(h) && Extends(g, h) && x in g && y in g && x in h && y in h
    requires |Missing(g, op, x, y)| == 1 && |h| == |g| + 1 && r in h && IsResult(h, op, x, y, r)
    ensures r !in g && h == g[r := h[r]] && Den(h, r) == Answer(g, op, x, y)
  {
    OneMissing(g, op, x, y);
    AnswerExtends(g, h, op, x, y);
    ResultDenotes(h, op, x, y, r);
    if r in g { DenExtends(g, h, r); }
    hide Answers, Answer, Den, IsResult, WellFormed, Extends;
    AddsOne(g, h, r);
  }

  lemma AddsOne(g: Graph, h: Graph, r: Ptr)
    requires Extends(g, h) && r in h && |h| == |g| + 1
    ensures r !in g ==> h == g[r := h[r]]
  {
    if r !in g {
      KeysExtend(g, h);
      assert |g.Keys| == |g| && |h.Keys| == |h|;
      SameSizeSubset(g.Keys + {r}, h.Keys);
    }
  }

  /** The second part still lacks just its own node. */
  lemma SecondPartStillLacks(g: Graph, h: Graph, op: Op, x: Ptr, y: Ptr, r: Ptr)
    requires WellFormed(g) && WellFormed(h) && Extends(g, h) && x in g && y in g && LacksItself(g, op, x, y)
    requires r in h && h.Keys == g.Keys + {r} && Den(h, r) != Answer(g, op, x, y)
    ensures x in h && y in h && LacksItself(h, op, x, y) && Answer(h, op, x, y) == Answer(g, op, x, y)
    ensures g.Keys <= h.Keys && PartsIn(h, op, x, y, g.Keys)
  {
    PartsKnown(g, op, x, y, false);
    PartsKnown(g, op, x, y, true);
    OneMissing(g, op, x, y);
    AnswersExtend(g, h, op, x, y);
    AnswerExtends(g, h, op, x, y);
    PartingExtends(g, h, op, x, y, Min(g[x].level, g[y].level));
    SameFunctions(g, h);
    DensUnion(h, g.Keys, {r});
    DensOne(h, r);
    hide *;
    MissingStays(g, h, op, x, y, Den(h, r));
  }

  lemma MissingStays(g: Graph, h: Graph, op: Op, x: Ptr, y: Ptr, f: Fun)
    requires WellFormed(g) && WellFormed(h) && x in g && y in g && x in h && y in h
    requires Missing(g, op, x, y) == {Answer(g, op, x, y)} && f != Answer(g, op, x, y)
    requires Answers(h, op, x, y) == Answers(g, op, x, y) && Dens(h, h.Keys) == Dens(g, g.Keys) + {f}
    ensures |Missing(h, op, x, y)| == 1
  {
    hide Answers, Answer, WellFormed, Dens;
    assert Missing(h, op, x, y) == {Answer(g, op, x, y)};
  }

  lemma DensOne(h: Graph, r: Ptr)
    requires WellFormed(h) && r in h
    ensures Dens(h, {r}) == {Den(h, r)}
  {
  }

  /** In `k`, which has all of `g`, the node `r` answers the operation on the second cofactors, not on the operands. */
  ghost predicate AnswersSecondPart(g: Graph, k: Graph, op: Op, x: Ptr, y: Ptr, r: Ptr) {
    && WellFormed(k) && Extends(g, k) && x in g && y in g && x in k && y in k
    && var m := Min(g[x].level, g[y].level);
    && Cofactor(g, x, m, true) in k && Cofactor(g, y, m, true) in k
    && IsResult(k, op, Cofactor(g, x, m, true), Cofactor(g, y, m, true), r)
    && !IsResult(k, op, x, y, r)
  }

  /** One node was added, and the operands of the second call are what they were. */
  ghost predicate FirstPartOnly(g: Graph, h: Graph, x: Ptr, y: Ptr, low: Ptr, cx: Ptr, cy: Ptr) {
    && x in g && y in g && low !in g && low in h && h == g[low := h[low]] && cx in g && cy in g
    && cx == Cofactor(g, x, Min(g[x].level, g[y].level), true)
    && cy == Cofactor(g, y, Min(g[x].level, g[y].level), true)
  }

  /** One slot was there: the first part took it, and the second one still lacks just its own node. */
  lemma FirstPartTaken(g: Graph, h: Graph, op: Op, x: Ptr, y: Ptr, m: nat, low: Ptr)
    requires WellFormed(g) && WellFormed(h) && Extends(g, h) && x in g && y in g && PartsApart(g, op, x, y)
    requires m == Min(g[x].level, g[y].level) && |h| == |g| + 1 && low in h
    requires Cofactor(g, x, m, false) in g && Cofactor(g, y, m, false) in g
    requires Cofactor(g, x, m, true) in g && Cofactor(g, y, m, true) in g
    requires Cofactor(g, x, m, false) in h && Cofactor(g, y, m, false) in h
    requires IsResult(h, op, Cofactor(g, x, m, false), Cofactor(g, y, m, false), low)
    ensures low !in g && h == g[low := h[low]]
    ensures Cofactor(g, x, m, true) in h && Cofactor(g, y, m, true) in h
    ensures LacksItself(h, op, Cofactor(g, x, m, true), Cofactor(g, y, m, true))
    ensures g.Keys <= h.Keys && PartsIn(h, op, Cofactor(g, x, m, true), Cofactor(g, y, m, true), g.Keys)
  {
    hide WellFormed, Missing, IsResult, Reach, Den, Dens, Answer, Extends, LacksItself, Cofactor;
    FirstPartAdds(g, h, op, Cofactor(g, x, m, false), Cofactor(g, y, m, false), low);
    SecondPartStillLacks(g, h, op, Cofactor(g, x, m, true), Cofactor(g, y, m, true), low);
  }

  /** A node for the second part is none for the whole. */
  lemma SecondPartIsNotAll(g: Graph, k: Graph, op: Op, x: Ptr, y: Ptr, m: nat, r: Ptr)
    requires WellFormed(g) && WellFormed(k) && Extends(g, k) && x in g && y in g && x in k && y in k
    requires Parting(g, op, x, y, m) && Cofactor(g, x, m, true) in g && Cofactor(g, y, m, true) in g
    requires Cofactor(g, x, m, true) in k && Cofactor(g, y, m, true) in k
    requires IsResult(k, op, Cofactor(g, x, m, true), Cofactor(g, y, m, true), r)
    ensures AnswersSecondPart(g, k, op, x, y, r)
  {
    RootApart(g, op, x, y, m, true);
    AnswerIsAnswer(g, op, Cofactor(g, x, m, true), Cofactor(g, y, m, true));
    AnswerExtends(g, k, op, x, y);
    AnswerExtends(g, k, op, Cofactor(g, x, m, true), Cofactor(g, y, m, true));
    ResultDenotes(k, op, Cofactor(g, x, m, true), Cofactor(g, y, m, true), r);
    if IsResult(k, op, x, y, r) {
      ResultDenotes(k, op, x, y, r);
    }
  }

  /** Parts that are nodes already make an operation that lacks at most itself. */
  lemma LacksOnlyItself(g: Graph, op: Op, x: Ptr, y: Ptr, m: nat, low: Ptr, high: Ptr)
    requires WellFormed(g) && x in g && y in g && m == Min(g[x].level, g[y].level)
    requires Expanded(g, op, x, y, m, low, high) && low != high && forall p :: p in g ==> g[p] != Cell(m, low, high)
    ensures LacksItself(g, op, x, y)
  {
    ResultDenotes(g, op, Cofactor(g, x, m, false), Cofactor(g, y, m, false), low);
    ResultDenotes(g, op, Cofactor(g, x, m, true), Cofactor(g, y, m, true), high);
    Canonicity(g, low, high);
    OnlyRootMissing(g, op, x, y, m, low, high);
    AnswerIsAnswer(g, op, x, y);
    if Answer(g, op, x, y) in Dens(g, g.Keys) {
      var r := NodeOf(g, g.Keys, Answer(g, op, x, y));
      ResultDenotes(g, op, x, y, r);
      AnswerKey(g, op, x, y, m, low, high, r);
    }
    hide Answers, Answer, Den, WellFormed, Dens, IsResult, Expanded;
    assert Missing(g, op, x, y) == {Answer(g, op, x, y)};
  }
}
