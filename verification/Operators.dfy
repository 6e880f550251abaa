/**
  What the six operators compute, independently of how: results on diagrams,
  Shannon expansion, and how many nodes a result can need.
 */
module Operators {
  import opened Nodes
  import opened Diagrams

  /** `enum Operator`, in the order of its codes. */
  datatype Op = And | Or | Not | Xor | Diff | Imp

  /** The code of an operator, as src/Common.h numbers them. */
  function Code(op: Op): nat {
    match op
    case And => 0
    case Or => 1
    case Not => 2
    case Xor => 3
    case Diff => 4
    case Imp => 5
  }

  /** The truth table of an operator. `Not` looks at its first operand only. */
  predicate Apply(op: Op, a: bool, b: bool) {
    match op
    case And => a && b
    case Or => a || b
    case Not => !a
    case Xor => a != b
    case Diff => a && !b
    case Imp => !a || b
  }

  /** The operator on Boolean functions. */
  ghost function ApplyFun(op: Op, a: Fun, b: Fun): Fun {
    iset env: Env | Apply(op, env in a, env in b)
  }

  /** `r` denotes `op` of what `x` and `y` denote. */
  ghost predicate IsResult(g: Graph, op: Op, x: Ptr, y: Ptr, r: Ptr)
    requires WellFormed(g) && x in g && y in g
  {
    r in g && forall env: Env :: Eval(g, r, env) == Apply(op, Eval(g, x, env), Eval(g, y, env))
  }

  lemma ResultDenotes(g: Graph, op: Op, x: Ptr, y: Ptr, r: Ptr)
    requires WellFormed(g) && x in g && y in g && r in g
    ensures IsResult(g, op, x, y, r) <==> Den(g, r) == ApplyFun(op, Den(g, x), Den(g, y))
  {
    if Den(g, r) == ApplyFun(op, Den(g, x), Den(g, y)) {
      forall env: Env ensures Eval(g, r, env) == Apply(op, Eval(g, x, env), Eval(g, y, env)) {
        assert env in Den(g, r) <==> env in ApplyFun(op, Den(g, x), Den(g, y));
      }
    }
  }

  /** At most one node of a graph is the result of an operation. */
  lemma ResultIsUnique(g: Graph, op: Op, x: Ptr, y: Ptr, r: Ptr, s: Ptr)
    requires WellFormed(g) && x in g && y in g
    requires IsResult(g, op, x, y, r) && IsResult(g, op, x, y, s)
    ensures r == s
  {
    Canonicity(g, r, s);
  }

  // ---- Shannon expansion of an operation

  /** A result that is not constant does not test a variable above both operands. */
  lemma ResultLevel(g: Graph, op: Op, x: Ptr, y: Ptr, r: Ptr)
    requires WellFormed(g) && x in g && y in g && IsResult(g, op, x, y, r)
    requires !IsTerminal(g[r])
    ensures Min(g[x].level, g[y].level) <= g[r].level
  {
    var l := g[r].level;
    if l < Min(g[x].level, g[y].level) {
      assert ProperNode(g, r);
      var env := Distinguish(g, g[r].low, g[r].high);
      var off, on := env - iset{l}, env + iset{l};
      EvalIgnores(g, g[r].low, env, off, l);
      EvalIgnores(g, g[r].high, env, on, l);
      EvalIgnores(g, x, off, on, l);
      EvalIgnores(g, y, off, on, l);
      assert false;
    }
  }

  /** The operands' cofactors give the cofactors of the result. */
  lemma ResultCofactor(g: Graph, op: Op, x: Ptr, y: Ptr, r: Ptr, m: nat, value: bool)
    requires WellFormed(g) && x in g && y in g && IsResult(g, op, x, y, r)
    requires m <= g[x].level && m <= g[y].level && m <= g[r].level && m < TERMINAL_LEVEL
    ensures Cofactor(g, x, m, value) in g && Cofactor(g, y, m, value) in g
    ensures IsResult(g, op, Cofactor(g, x, m, value), Cofactor(g, y, m, value), Cofactor(g, r, m, value))
  {
    var cx, cy, cr := Cofactor(g, x, m, value), Cofactor(g, y, m, value), Cofactor(g, r, m, value);
    CofactorBelow(g, x, m, value);
    CofactorBelow(g, y, m, value);
    CofactorBelow(g, r, m, value);
    forall env: Env ensures Eval(g, cr, env) == Apply(op, Eval(g, cx, env), Eval(g, cy, env)) {
      var e := if value then env + iset{m} else env - iset{m};
      EvalIgnores(g, cx, env, e, m);
      EvalIgnores(g, cy, env, e, m);
      EvalIgnores(g, cr, env, e, m);
      EvalCofactor(g, x, m, e);
      EvalCofactor(g, y, m, e);
      EvalCofactor(g, r, m, e);
    }
  }

  /** `low` and `high` are the results on the operands' cofactors at the variable level `m`. */
  ghost predicate Expanded(g: Graph, op: Op, x: Ptr, y: Ptr, m: nat, low: Ptr, high: Ptr)
    requires WellFormed(g) && x in g && y in g
  {
    && m <= g[x].level && m <= g[y].level && m < TERMINAL_LEVEL
    && Cofactor(g, x, m, false) in g && Cofactor(g, y, m, false) in g
    && Cofactor(g, x, m, true) in g && Cofactor(g, y, m, true) in g
    && IsResult(g, op, Cofactor(g, x, m, false), Cofactor(g, y, m, false), low)
    && IsResult(g, op, Cofactor(g, x, m, true), Cofactor(g, y, m, true), high)
  }

  /** The key that `combine` asks for is proper. */
  lemma CombineKey(g: Graph, op: Op, x: Ptr, y: Ptr, m: nat, low: Ptr, high: Ptr)
    requires WellFormed(g) && x in g && y in g
    requires Expanded(g, op, x, y, m, low, high) && low != high
    ensures ProperKey(g, Cell(m, low, high))
  {
    assert ProperNode(g, low) && ProperNode(g, high);
    CofactorBelow(g, x, m, false);
    CofactorBelow(g, y, m, false);
    CofactorBelow(g, x, m, true);
    CofactorBelow(g, y, m, true);
    if !IsTerminal(g[low]) {
      ResultLevel(g, op, Cofactor(g, x, m, false), Cofactor(g, y, m, false), low);
    }
    if !IsTerminal(g[high]) {
      ResultLevel(g, op, Cofactor(g, x, m, true), Cofactor(g, y, m, true), high);
    }
  }

  /** Combining the results on the cofactors gives the result on the operands. */
  lemma CombineIsResult(g: Graph, op: Op, x: Ptr, y: Ptr, m: nat, low: Ptr, high: Ptr, r: Ptr)
    requires WellFormed(g) && x in g && y in g && r in g
    requires Expanded(g, op, x, y, m, low, high)
    requires (low == high && r == low) || g[r] == Cell(m, low, high)
    ensures IsResult(g, op, x, y, r)
  {
    forall env: Env ensures Eval(g, r, env) == Apply(op, Eval(g, x, env), Eval(g, y, env)) {
      EvalCofactor(g, x, m, env);
      EvalCofactor(g, y, m, env);
      assert Eval(g, low, env) ==
        Apply(op, Eval(g, Cofactor(g, x, m, false), env), Eval(g, Cofactor(g, y, m, false), env));
      assert Eval(g, high, env) ==
        Apply(op, Eval(g, Cofactor(g, x, m, true), env), Eval(g, Cofactor(g, y, m, true), env));
    }
  }

  lemma ResultStable(g: Graph, h: Graph, op: Op, x: Ptr, y: Ptr, r: Ptr)
    requires WellFormed(g) && WellFormed(h) && Extends(g, h) && x in g && y in g && r in g
    ensures IsResult(g, op, x, y, r) == IsResult(h, op, x, y, r)
  {
    DenExtends(g, h, x);
    DenExtends(g, h, y);
    DenExtends(g, h, r);
    ResultDenotes(g, op, x, y, r);
    ResultDenotes(h, op, x, y, r);
  }

  /** The node inserted for the combined key denotes the operation. */
  lemma NewNodeIsResult(g: Graph, op: Op, x: Ptr, y: Ptr, m: nat, low: Ptr, high: Ptr, r: Ptr)
    requires WellFormed(g) && x in g && y in g && r !in g && r != NULL
    requires Expanded(g, op, x, y, m, low, high) && low != high
    requires forall p :: p in g ==> g[p] != Cell(m, low, high)
    ensures var h := g[r := Cell(m, low, high)];
      WellFormed(h) && Extends(g, h) && IsResult(h, op, x, y, r)
  {
    var h := g[r := Cell(m, low, high)];
    CombineKey(g, op, x, y, m, low, high);
    InsertKeepsWellFormed(g, r, Cell(m, low, high));
    ResultStable(g, h, op, Cofactor(g, x, m, false), Cofactor(g, y, m, false), low);
    ResultStable(g, h, op, Cofactor(g, x, m, true), Cofactor(g, y, m, true), high);
    CombineIsResult(h, op, x, y, m, low, high, r);
  }

  lemma {:induction false} FreshPtr(s: set<Ptr>) returns (r: Ptr)
    ensures r !in s && r != NULL
    ensures forall p :: p in s ==> p < r
  {
    if s == {} {
      r := 1;
    } else {
      var p :| p in s;
      var above := FreshPtr(s - {p});
      r := if above <= p then p + 1 else above;
      forall q | q in s ensures q < r {
        assert q == p || q in s - {p};
      }
    }
  }

  // ---- Pairs of nodes

  ghost function Pairs(xs: set<Ptr>, ys: set<Ptr>): set<(Ptr, Ptr)> {
    set u, v | u in xs && v in ys :: (u, v)
  }

  lemma {:induction false} RowSize(x: Ptr, ys: set<Ptr>)
    ensures |Pairs({x}, ys)| == |ys|
  {
    if ys == {} {
      assert Pairs({x}, ys) == {};
    } else {
      var y :| y in ys;
      RowSize(x, ys - {y});
      assert Pairs({x}, ys) == Pairs({x}, ys - {y}) + {(x, y)};
    }
  }

  lemma {:induction false} PairsSize(xs: set<Ptr>, ys: set<Ptr>)
    ensures |Pairs(xs, ys)| == |xs| * |ys|
  {
    if xs == {} {
      assert Pairs(xs, ys) == {};
    } else {
      var x :| x in xs;
      RowSize(x, ys);
      PairsSize(xs - {x}, ys);
      assert Pairs(xs, ys) == Pairs(xs - {x}, ys) + Pairs({x}, ys);
      assert Pairs(xs - {x}, ys) !! Pairs({x}, ys);
      calc {
        |Pairs(xs, ys)|;
        |xs - {x}| * |ys| + |ys|;
        (|xs - {x}| + 1) * |ys|;
        { assert |xs - {x}| + 1 == |xs|; }
        |xs| * |ys|;
      }
    }
  }
}
