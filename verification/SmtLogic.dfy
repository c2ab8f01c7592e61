/** The fragment of the SMT expression language that the state encoder produces, and its
  * meaning under a valuation of the free variables.  Integers are 64-bit words. */
module SmtLogic {

  const WORD: nat := 0x1_0000_0000_0000_0000

  function Wrap(n: int): (w: int)
    ensures 0 <= w < WORD
  {
    n % WORD
  }

  /** The signed reading of a word. */
  function Signed(n: int): int {
    var w := Wrap(n);
    if w < WORD / 2 then w else w - WORD
  }

  /** The name of a memory array: a memory space, or a property. */
  datatype ArrayId = Memory(space: nat) | Property(name: string)

  /** Array variables: an unconstrained initial array, or the fresh array that one
    * free-variable choice (numbered by its tick) introduces for an array id. */
  datatype ArrayVar = Initial(id: ArrayId) | External(id: ArrayId, tick: nat)

  datatype ArithOp = Add | Sub | Mul
  datatype CmpOp = Eq | Neq | Sgt | Sge | Slt | Sle | Ugt | Uge | Ult | Ule
  datatype LogicOp = And | Or | Xor | Implies

  datatype IntExpr =
    | Num(n: int)
    | IntVar(name: string)
    | Arith(aop: ArithOp, l: IntExpr, r: IntExpr)
    | Select(arr: ArrExpr, ix: IntExpr)

  datatype ArrExpr =
    | Default(elem: int)
    | ArrVar(v: ArrayVar)
    | Store(arr: ArrExpr, ix: IntExpr, val: IntExpr)
    | ArrIte(cond: BoolExpr, thn: ArrExpr, els: ArrExpr)

  datatype BoolExpr =
    | BoolConst(b: bool)
    | BoolVar(name: string)
    | Cmp(cop: CmpOp, l: IntExpr, r: IntExpr)
    | BoolEq(p: BoolExpr, q: BoolExpr)
    | Logic(lop: LogicOp, p: BoolExpr, q: BoolExpr)
    | ArrEq(left: ArrExpr, right: ArrExpr)

  /** A boolean expression together with the axiom spliced onto it. */
  datatype Formula = Formula(expr: BoolExpr, axiom: BoolExpr) {
    function Conj(that: Formula): Formula {
      Formula(Logic(And, expr, that.expr), Logic(And, axiom, that.axiom))
    }

    function Disj(that: Formula): Formula {
      Formula(Logic(Or, expr, that.expr), Logic(And, axiom, that.axiom))
    }

    /** The expression of `that` becomes part of the axiom. */
    function WithAxiom(that: Formula): Formula {
      Formula(expr, Logic(And, axiom, Logic(And, that.expr, that.axiom)))
    }
  }

  function Plain(e: BoolExpr): Formula {
    Formula(e, BoolConst(true))
  }

  const TRUE := Plain(BoolConst(true))
  const FALSE := Plain(BoolConst(false))

  /** Array values are total. */
  ghost predicate Total(m: imap<int, int>) {
    forall i: int :: i in m
  }

  ghost function Constant(n: int): (m: imap<int, int>)
    ensures Total(m)
    ensures forall i: int :: m[i] == n
  {
    imap i: int :: ElementAt(i, n)
  }

  function ElementAt(i: int, n: int): int {
    n
  }

  type ArrVal = m: imap<int, int> | Total(m) ghost witness Constant(0)

  datatype Valuation = Valuation(ints: string -> int, bools: string -> bool, ghost arrays: ArrayVar -> ArrVal)

  function EvalArith(op: ArithOp, a: int, b: int): int {
    match op
    case Add => Wrap(a + b)
    case Sub => Wrap(a - b)
    case Mul => Wrap(a * b)
  }

  function EvalCmp(op: CmpOp, a: int, b: int): bool {
    match op
    case Eq => Wrap(a) == Wrap(b)
    case Neq => Wrap(a) != Wrap(b)
    case Sgt => Signed(a) > Signed(b)
    case Sge => Signed(a) >= Signed(b)
    case Slt => Signed(a) < Signed(b)
    case Sle => Signed(a) <= Signed(b)
    case Ugt => Wrap(a) > Wrap(b)
    case Uge => Wrap(a) >= Wrap(b)
    case Ult => Wrap(a) < Wrap(b)
    case Ule => Wrap(a) <= Wrap(b)
  }

  function EvalLogic(op: LogicOp, p: bool, q: bool): bool {
    match op
    case And => p && q
    case Or => p || q
    case Xor => p != q
    case Implies => p ==> q
  }

  ghost function EvalInt(e: IntExpr, v: Valuation): int {
    match e
    case Num(n) => Wrap(n)
    case IntVar(x) => Wrap(v.ints(x))
    case Arith(op, l, r) => EvalArith(op, EvalInt(l, v), EvalInt(r, v))
    case Select(a, i) => EvalArr(a, v)[EvalInt(i, v)]
  }

  ghost function EvalArr(a: ArrExpr, v: Valuation): ArrVal {
    match a
    case Default(n) => Constant(Wrap(n))
    case ArrVar(x) => v.arrays(x)
    case Store(b, i, e) => EvalArr(b, v)[EvalInt(i, v) := EvalInt(e, v)]
    case ArrIte(c, t, f) => if Eval(c, v) then EvalArr(t, v) else EvalArr(f, v)
  }

  ghost predicate Eval(e: BoolExpr, v: Valuation) {
    match e
    case BoolConst(b) => b
    case BoolVar(x) => v.bools(x)
    case Cmp(op, l, r) => EvalCmp(op, EvalInt(l, v), EvalInt(r, v))
    case BoolEq(p, q) => Eval(p, v) == Eval(q, v)
    case Logic(op, p, q) => EvalLogic(op, Eval(p, v), Eval(q, v))
    case ArrEq(a, b) => EvalArr(a, v) == EvalArr(b, v)
  }

  lemma ConjMeans(f: Formula, g: Formula, v: Valuation)
    ensures Eval(f.Conj(g).expr, v) <==> Eval(f.expr, v) && Eval(g.expr, v)
    ensures Eval(f.Conj(g).axiom, v) <==> Eval(f.axiom, v) && Eval(g.axiom, v)
  {
  }

  lemma DisjMeans(f: Formula, g: Formula, v: Valuation)
    ensures Eval(f.Disj(g).expr, v) <==> Eval(f.expr, v) || Eval(g.expr, v)
    ensures Eval(f.Disj(g).axiom, v) <==> Eval(f.axiom, v) && Eval(g.axiom, v)
  {
  }

  lemma WithAxiomMeans(f: Formula, g: Formula, v: Valuation)
    ensures Eval(f.WithAxiom(g).expr, v) == Eval(f.expr, v)
    ensures Eval(f.WithAxiom(g).axiom, v) <==> Eval(f.axiom, v) && Eval(g.expr, v) && Eval(g.axiom, v)
  {
    assert Eval(Logic(And, g.expr, g.axiom), v) <==> Eval(g.expr, v) && Eval(g.axiom, v);
  }

  /** `switch_` over arrays: a left fold of if-then-else, so the last true guard wins. */
  function Switch(cases: seq<(BoolExpr, ArrExpr)>, default: ArrExpr): ArrExpr
    decreases |cases|
  {
    if cases == [] then default
    else
      var n := |cases| - 1;
      ArrIte(cases[n].0, cases[n].1, Switch(cases[..n], default))
  }

  /** The last true guard decides: `Switch` has the value of its case. */
  lemma {:induction false} SwitchPicksLastTrueGuard(cases: seq<(BoolExpr, ArrExpr)>, default: ArrExpr, k: nat,
                                                    v: Valuation)
    requires k < |cases| && Eval(cases[k].0, v)
    requires forall j | k < j < |cases| :: !Eval(cases[j].0, v)
    ensures EvalArr(Switch(cases, default), v) == EvalArr(cases[k].1, v)
    decreases |cases|
  {
    var n := |cases| - 1;
    if k < n {
      SwitchPicksLastTrueGuard(cases[..n], default, k, v);
    }
  }

  /** If no guard is true, `Switch` has the value of the default. */
  lemma {:induction false} SwitchFallsThrough(cases: seq<(BoolExpr, ArrExpr)>, default: ArrExpr, v: Valuation)
    requires forall j | 0 <= j < |cases| :: !Eval(cases[j].0, v)
    ensures EvalArr(Switch(cases, default), v) == EvalArr(default, v)
    decreases |cases|
  {
    if cases != [] {
      SwitchFallsThrough(cases[..|cases| - 1], default, v);
    }
  }

  /** If every case has the value of the default, so has `Switch`, whatever the guards say. */
  lemma {:induction false} SwitchOfEqualCases(cases: seq<(BoolExpr, ArrExpr)>, default: ArrExpr, v: Valuation)
    requires forall j | 0 <= j < |cases| :: EvalArr(cases[j].1, v) == EvalArr(default, v)
    ensures EvalArr(Switch(cases, default), v) == EvalArr(default, v)
    decreases |cases|
  {
    if cases != [] {
      SwitchOfEqualCases(cases[..|cases| - 1], default, v);
    }
  }
}
