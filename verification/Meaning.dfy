/** The meaning of predicate states: a path is run predicate by predicate over a concrete
  * memory, and the encoder's symbolic memory denotes a concrete memory. */
module Meaning {
  import opened SmtLogic
  import opened PredicateStates
  import opened Encoding

  ghost predicate TotalMem(m: imap<ArrayId, ArrVal>) {
    forall id: ArrayId :: id in m
  }

  ghost function FilledMem(a: ArrVal): (m: imap<ArrayId, ArrVal>)
    ensures TotalMem(m)
  {
    imap id: ArrayId :: ArrayOf(id, a)
  }

  ghost function ArrayOf(id: ArrayId, a: ArrVal): ArrVal {
    a
  }

  type Mem = m: imap<ArrayId, ArrVal> | TotalMem(m) ghost witness FilledMem(Constant(0))

  ghost function IntValue(t: IntTerm, m: Mem, v: Valuation): int {
    match t
    case Const(n) => Wrap(n)
    case Value(x) => Wrap(v.ints(x))
    case Load(id, ptr) => m[id][IntValue(ptr, m, v)]
    case Binary(op, l, r) => EvalArith(op, IntValue(l, m, v), IntValue(r, m, v))
  }

  ghost predicate BoolValue(t: BoolTerm, m: Mem, v: Valuation) {
    match t
    case BoolLit(b) => b
    case Flag(x) => v.bools(x)
    case Compare(op, l, r) => EvalCmp(op, IntValue(l, m, v), IntValue(r, m, v))
    case Combine(op, p, q) => EvalLogic(op, BoolValue(p, m, v), BoolValue(q, m, v))
  }

  /** Writes always succeed. */
  ghost predicate Holds(a: Action, m: Mem, v: Valuation) {
    match a
    case Equality(l, r) => EvalCmp(Eq, IntValue(l, m, v), IntValue(r, m, v))
    case Inequality(l, r) => EvalCmp(Neq, IntValue(l, m, v), IntValue(r, m, v))
    case BoolEquality(p, q) => BoolValue(p, m, v) == BoolValue(q, m, v)
    case Write(_, _, _) => true
  }

  ghost function WithCell(m: Mem, id: ArrayId, i: int, n: int): Mem {
    WithArray(m, id, m[id][i := n])
  }

  ghost function WithArray(m: Mem, id: ArrayId, a: ArrVal): Mem {
    m[id := a]
  }

  ghost function After(a: Action, m: Mem, v: Valuation): Mem {
    match a
    case Write(id, ptr, val) => WithCell(m, id, IntValue(ptr, m, v), IntValue(val, m, v))
    case _ => m
  }

  /** Runs a path; None if a predicate other than an INVARIANT fails where it stands. */
  ghost function Run(p: seq<Predicate>, m: Mem, v: Valuation): Option<Mem> {
    if p == [] then Some(m)
    else if p[0].kind != INVARIANT && !Holds(p[0].action, m, v) then None
    else Run(p[1..], After(p[0].action, m, v), v)
  }

  /** Every INVARIANT of the path holds where it stands. */
  ghost predicate InvariantsHold(p: seq<Predicate>, m: Mem, v: Valuation) {
    p == [] || (   (p[0].kind == INVARIANT ==> Holds(p[0].action, m, v))
                && InvariantsHold(p[1..], After(p[0].action, m, v), v))
  }

  ghost predicate Executes(p: seq<Predicate>, m: Mem, v: Valuation) {
    Run(p, m, v).Some?
  }

  /** The concrete memory a context denotes. */
  ghost function MemOf(ctx: Context, v: Valuation): Mem {
    imap id: ArrayId :: EvalArr(Lookup(ctx, id).arr, v)
  }

  /** What the encoder promises about a formula and a context: some path of the state
    * executes exactly when the formula is true, every path that executes ends in the
    * memory of the context, and if the axiom is true that path meets its invariants. */
  ghost predicate Exact(f: Formula, after: Context, paths: set<seq<Predicate>>, m: Mem, v: Valuation) {
    && (Eval(f.expr, v) <==> exists p :: p in paths && Executes(p, m, v))
    && (forall p | p in paths && Executes(p, m, v) ::
          Run(p, m, v) == Some(MemOf(after, v)) && (Eval(f.axiom, v) ==> InvariantsHold(p, m, v)))
  }

  // ---------- running a concatenation ----------

  lemma {:induction false} RunConcat(p: seq<Predicate>, q: seq<Predicate>, m: Mem, v: Valuation)
    ensures Run(p + q, m, v) == if Executes(p, m, v) then Run(q, Run(p, m, v).value, v) else None
    ensures Executes(p, m, v) ==>
      (InvariantsHold(p + q, m, v) <==> InvariantsHold(p, m, v) && InvariantsHold(q, Run(p, m, v).value, v))
  {
    if p == [] {
      assert p + q == q;
    } else {
      assert (p + q)[0] == p[0] && (p + q)[1..] == p[1..] + q;
      RunConcat(p[1..], q, After(p[0].action, m, v), v);
    }
  }

  // ---------- terms and predicates mean what they encode to ----------

  ghost predicate SameArrays(a: Context, b: Context) {
    forall id :: Lookup(a, id) == Lookup(b, id)
  }

  lemma SameArraysSameMem(a: Context, b: Context, v: Valuation)
    requires SameArrays(a, b)
    ensures MemOf(a, v) == MemOf(b, v)
  {
    assert forall id :: MemOf(a, v)[id] == MemOf(b, v)[id];
  }

  lemma {:induction false} EncodeIntMeans(t: IntTerm, ctx: Context, v: Valuation)
    ensures EvalInt(EncodeInt(t, ctx).0, v) == IntValue(t, MemOf(ctx, v), v)
    ensures SameArrays(ctx, EncodeInt(t, ctx).1)
  {
    match t
    case Const(_) =>
    case Value(_) =>
    case Load(id, ptr) =>
      EncodeIntMeans(ptr, ctx, v);
    case Binary(op, l, r) =>
      EncodeIntMeans(l, ctx, v);
      var c := EncodeInt(l, ctx).1;
      EncodeIntMeans(r, c, v);
      SameArraysSameMem(ctx, c, v);
  }

  lemma {:induction false} EncodeBoolMeans(t: BoolTerm, ctx: Context, v: Valuation)
    ensures Eval(EncodeBool(t, ctx).0, v) == BoolValue(t, MemOf(ctx, v), v)
    ensures SameArrays(ctx, EncodeBool(t, ctx).1)
  {
    match t
    case BoolLit(_) =>
    case Flag(_) =>
    case Compare(op, l, r) =>
      EncodeIntMeans(l, ctx, v);
      var c := EncodeInt(l, ctx).1;
      EncodeIntMeans(r, c, v);
      SameArraysSameMem(ctx, c, v);
    case Combine(op, p, q) =>
      EncodeBoolMeans(p, ctx, v);
      var c := EncodeBool(p, ctx).1;
      EncodeBoolMeans(q, c, v);
      SameArraysSameMem(ctx, c, v);
  }

  lemma EncodeActionMeans(a: Action, ctx: Context, v: Valuation)
    ensures Eval(EncodeAction(a, ctx).0, v) == Holds(a, MemOf(ctx, v), v)
    ensures MemOf(EncodeAction(a, ctx).1, v) == After(a, MemOf(ctx, v), v)
  {
    match a
    case Equality(l, r) => EncodePairMeans(l, r, ctx, v);
    case Inequality(l, r) => EncodePairMeans(l, r, ctx, v);
    case BoolEquality(p, q) =>
      EncodeBoolMeans(p, ctx, v);
      var c := EncodeBool(p, ctx).1;
      EncodeBoolMeans(q, c, v);
      SameArraysSameMem(ctx, c, v);
      SameArraysSameMem(ctx, EncodeBool(q, c).1, v);
    case Write(id, ptr, val) =>
      EncodePairMeans(ptr, val, ctx, v);
      var p := EncodeInt(ptr, ctx);
      var x := EncodeInt(val, p.1);
      StoreMeans(x.1, id, p.0, x.0, v);
  }

  lemma StoreMeans(ctx: Context, id: ArrayId, ix: IntExpr, val: IntExpr, v: Valuation)
    ensures MemOf(Update(ctx, id, StoreVersioned(Lookup(ctx, id), ix, val)), v)
      == WithCell(MemOf(ctx, v), id, EvalInt(ix, v), EvalInt(val, v))
  {
    UpdateMeans(ctx, id, StoreVersioned(Lookup(ctx, id), ix, val), v);
    StoredArray(ctx, id, ix, val, v);
  }

  lemma StoredArray(ctx: Context, id: ArrayId, ix: IntExpr, val: IntExpr, v: Valuation)
    ensures EvalArr(StoreVersioned(Lookup(ctx, id), ix, val).arr, v)
      == MemOf(ctx, v)[id][EvalInt(ix, v) := EvalInt(val, v)]
  {
    assert MemOf(ctx, v)[id] == EvalArr(Lookup(ctx, id).arr, v);
  }

  lemma UpdateMeans(ctx: Context, id: ArrayId, val: Versioned, v: Valuation)
    ensures MemOf(Update(ctx, id, val), v) == WithArray(MemOf(ctx, v), id, EvalArr(val.arr, v))
  {
    var m, n := MemOf(ctx, v), MemOf(Update(ctx, id, val), v);
    forall i ensures n[i] == WithArray(m, id, EvalArr(val.arr, v))[i] {
      LookupUpdated(ctx, id, val, i);
    }
  }

  lemma LookupUpdated(ctx: Context, id: ArrayId, val: Versioned, i: ArrayId)
    ensures Lookup(Update(ctx, id, val), i) == if i == id then val else Lookup(ctx, i)
  {
  }

  lemma EncodePairMeans(l: IntTerm, r: IntTerm, ctx: Context, v: Valuation)
    ensures EvalInt(EncodeInt(l, ctx).0, v) == IntValue(l, MemOf(ctx, v), v)
    ensures EvalInt(EncodeInt(r, EncodeInt(l, ctx).1).0, v) == IntValue(r, MemOf(ctx, v), v)
    ensures SameArrays(ctx, EncodeInt(r, EncodeInt(l, ctx).1).1)
    ensures MemOf(EncodeInt(r, EncodeInt(l, ctx).1).1, v) == MemOf(ctx, v)
  {
    EncodeIntMeans(l, ctx, v);
    var c := EncodeInt(l, ctx).1;
    EncodeIntMeans(r, c, v);
    SameArraysSameMem(ctx, c, v);
    SameArraysSameMem(ctx, EncodeInt(r, c).1, v);
  }

  /** A predicate list is encoded exactly: the accumulated formula keeps what it said. */
  lemma {:induction false} EncodeDataMeans(data: seq<Predicate>, ctx: Context, acc: Formula, v: Valuation)
    ensures var r := EncodeData(data, ctx, acc);
      && (Eval(r.0.expr, v) <==> Eval(acc.expr, v) && Executes(data, MemOf(ctx, v), v))
      && (Eval(acc.axiom, v) && InvariantsHold(data, MemOf(ctx, v), v) <==> Eval(r.0.axiom, v))
      && (Executes(data, MemOf(ctx, v), v) ==> Run(data, MemOf(ctx, v), v) == Some(MemOf(r.1, v)))
  {
    if data != [] {
      var a := data[0].action;
      var r := EncodeAction(a, ctx);
      EncodeActionMeans(a, ctx, v);
      Accumulated(acc, r.0, v);
      var f := Plain(r.0);
      EncodeDataMeans(data[1..], r.1, if data[0].kind == INVARIANT then acc.WithAxiom(f) else acc.Conj(f), v);
      RunStep(data, MemOf(ctx, v), v);
    }
  }

  lemma Accumulated(acc: Formula, e: BoolExpr, v: Valuation)
    ensures Eval(acc.WithAxiom(Plain(e)).expr, v) == Eval(acc.expr, v)
    ensures Eval(acc.WithAxiom(Plain(e)).axiom, v) <==> Eval(acc.axiom, v) && Eval(e, v)
    ensures Eval(acc.Conj(Plain(e)).expr, v) <==> Eval(acc.expr, v) && Eval(e, v)
    ensures Eval(acc.Conj(Plain(e)).axiom, v) == Eval(acc.axiom, v)
  {
    WithAxiomMeans(acc, Plain(e), v);
    ConjMeans(acc, Plain(e), v);
    assert Eval(BoolConst(true), v);
  }

  lemma RunStep(p: seq<Predicate>, m: Mem, v: Valuation)
    requires p != []
    ensures var a, next := p[0].action, After(p[0].action, m, v);
      && (Executes(p, m, v) <==> (p[0].kind == INVARIANT || Holds(a, m, v)) && Executes(p[1..], next, v))
      && (Executes(p, m, v) ==> Run(p, m, v) == Run(p[1..], next, v))
      && (InvariantsHold(p, m, v) <==> (p[0].kind == INVARIANT ==> Holds(a, m, v)) && InvariantsHold(p[1..], next, v))
  {
  }

  lemma BasicExact(data: seq<Predicate>, ctx: Context, v: Valuation)
    ensures var r := EncodeData(data, ctx, TRUE);
      Exact(r.0.Conj(TRUE), r.1, {data}, MemOf(ctx, v), v)
  {
    EncodeDataMeans(data, ctx, TRUE, v);
  }

  /** Sequencing composes exact encodings. */
  lemma ChainExact(f: Formula, g: Formula, ps: set<seq<Predicate>>, qs: set<seq<Predicate>>,
                   m: Mem, mid: Context, after: Context, v: Valuation)
    requires Exact(f, mid, ps, m, v)
    requires Exact(g, after, qs, MemOf(mid, v), v)
    ensures Exact(TRUE.Conj(f).Conj(g), after, Concat(ps, qs), m, v)
  {
    var h := TRUE.Conj(f).Conj(g);
    ConjMeans(TRUE, f, v);
    ConjMeans(TRUE.Conj(f), g, v);
    forall p | p in Concat(ps, qs) && Executes(p, m, v)
      ensures Run(p, m, v) == Some(MemOf(after, v)) && (Eval(h.axiom, v) ==> InvariantsHold(p, m, v))
      ensures Eval(h.expr, v)
    {
      var x, y :| x in ps && y in qs && p == Join(x, y);
      ChainOne(f, g, x, y, ps, qs, m, mid, after, v);
    }
    if Eval(h.expr, v) {
      var x :| x in ps && Executes(x, m, v);
      var y :| y in qs && Executes(y, MemOf(mid, v), v);
      RunConcat(x, y, m, v);
      assert Join(x, y) in Concat(ps, qs);
    }
  }

  lemma ChainOne(f: Formula, g: Formula, x: seq<Predicate>, y: seq<Predicate>, ps: set<seq<Predicate>>,
                 qs: set<seq<Predicate>>, m: Mem, mid: Context, after: Context, v: Valuation)
    requires Exact(f, mid, ps, m, v) && Exact(g, after, qs, MemOf(mid, v), v)
    requires x in ps && y in qs && Executes(x + y, m, v)
    ensures Executes(x, m, v) && Executes(y, MemOf(mid, v), v) && Run(x + y, m, v) == Some(MemOf(after, v))
    ensures Eval(f.axiom, v) && Eval(g.axiom, v) ==> InvariantsHold(x + y, m, v)
  {
    RunConcat(x, y, m, v);
  }
}
