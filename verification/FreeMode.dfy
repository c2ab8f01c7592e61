/** The free-variable encoder: instead of merging memories it lets each choice introduce
  * fresh array variables.  Its formula is satisfiable by some choice of those variables
  * exactly when some path executes, with no exclusivity between alternatives. */
module FreeMode {
  import opened SmtLogic
  import opened PredicateStates
  import opened Encoding
  import opened Meaning

  // ---------- which choices an expression mentions ----------

  ghost predicate IntUses(e: IntExpr, s: iset<nat>) {
    match e
    case Num(_) => true
    case IntVar(_) => true
    case Arith(_, l, r) => IntUses(l, s) && IntUses(r, s)
    case Select(a, i) => ArrUses(a, s) && IntUses(i, s)
  }

  ghost predicate ArrUses(a: ArrExpr, s: iset<nat>) {
    match a
    case Default(_) => true
    case ArrVar(x) => x.External? ==> x.tick in s
    case Store(b, i, e) => ArrUses(b, s) && IntUses(i, s) && IntUses(e, s)
    case ArrIte(c, t, f) => Uses(c, s) && ArrUses(t, s) && ArrUses(f, s)
  }

  ghost predicate Uses(e: BoolExpr, s: iset<nat>) {
    match e
    case BoolConst(_) => true
    case BoolVar(_) => true
    case Cmp(_, l, r) => IntUses(l, s) && IntUses(r, s)
    case BoolEq(p, q) => Uses(p, s) && Uses(q, s)
    case Logic(_, p, q) => Uses(p, s) && Uses(q, s)
    case ArrEq(a, b) => ArrUses(a, s) && ArrUses(b, s)
  }

  ghost predicate CtxUses(ctx: Context, s: iset<nat>) {
    forall id :: ArrUses(Lookup(ctx, id).arr, s)
  }

  ghost function Between(lo: nat, hi: nat): iset<nat> {
    iset t: nat | Within(lo, t, hi)
  }

  predicate Within(lo: nat, t: nat, hi: nat) {
    lo < t <= hi
  }

  /** The two valuations differ at most on the external arrays of ticks outside `s`. */
  ghost predicate Agree(v: Valuation, w: Valuation, s: iset<nat>) {
    && v.ints == w.ints && v.bools == w.bools
    && forall x: ArrayVar :: (x.External? ==> x.tick in s) ==> v.arrays(x) == w.arrays(x)
  }

  lemma {:induction false} IntUsesMore(e: IntExpr, s: iset<nat>, t: iset<nat>)
    requires IntUses(e, s) && s <= t
    ensures IntUses(e, t)
  {
    match e
    case Arith(_, l, r) => IntUsesMore(l, s, t); IntUsesMore(r, s, t);
    case Select(a, i) => ArrUsesMore(a, s, t); IntUsesMore(i, s, t);
    case _ =>
  }

  lemma {:induction false} ArrUsesMore(a: ArrExpr, s: iset<nat>, t: iset<nat>)
    requires ArrUses(a, s) && s <= t
    ensures ArrUses(a, t)
  {
    match a
    case Store(b, i, e) => ArrUsesMore(b, s, t); IntUsesMore(i, s, t); IntUsesMore(e, s, t);
    case ArrIte(c, x, y) => UsesMore(c, s, t); ArrUsesMore(x, s, t); ArrUsesMore(y, s, t);
    case _ =>
  }

  lemma {:induction false} UsesMore(e: BoolExpr, s: iset<nat>, t: iset<nat>)
    requires Uses(e, s) && s <= t
    ensures Uses(e, t)
  {
    match e
    case Cmp(_, l, r) => IntUsesMore(l, s, t); IntUsesMore(r, s, t);
    case BoolEq(p, q) => UsesMore(p, s, t); UsesMore(q, s, t);
    case Logic(_, p, q) => UsesMore(p, s, t); UsesMore(q, s, t);
    case ArrEq(a, b) => ArrUsesMore(a, s, t); ArrUsesMore(b, s, t);
    case _ =>
  }

  lemma CtxUsesMore(ctx: Context, s: iset<nat>, t: iset<nat>)
    requires CtxUses(ctx, s) && s <= t
    ensures CtxUses(ctx, t)
  {
    forall id ensures ArrUses(Lookup(ctx, id).arr, t) {
      ArrUsesMore(Lookup(ctx, id).arr, s, t);
    }
  }

  /** An expression has the same value under valuations that agree on what it mentions. */
  lemma {:induction false} IntLocal(e: IntExpr, s: iset<nat>, v: Valuation, w: Valuation)
    requires IntUses(e, s) && Agree(v, w, s)
    ensures EvalInt(e, v) == EvalInt(e, w)
  {
    match e
    case Arith(_, l, r) => IntLocal(l, s, v, w); IntLocal(r, s, v, w);
    case Select(a, i) => ArrLocal(a, s, v, w); IntLocal(i, s, v, w);
    case _ =>
  }

  lemma {:induction false} ArrLocal(a: ArrExpr, s: iset<nat>, v: Valuation, w: Valuation)
    requires ArrUses(a, s) && Agree(v, w, s)
    ensures EvalArr(a, v) == EvalArr(a, w)
  {
    match a
    case Store(b, i, e) => ArrLocal(b, s, v, w); IntLocal(i, s, v, w); IntLocal(e, s, v, w);
    case ArrIte(c, x, y) => Local(c, s, v, w); ArrLocal(x, s, v, w); ArrLocal(y, s, v, w);
    case _ =>
  }

  lemma {:induction false} Local(e: BoolExpr, s: iset<nat>, v: Valuation, w: Valuation)
    requires Uses(e, s) && Agree(v, w, s)
    ensures Eval(e, v) == Eval(e, w)
  {
    match e
    case Cmp(_, l, r) => IntLocal(l, s, v, w); IntLocal(r, s, v, w);
    case BoolEq(p, q) => Local(p, s, v, w); Local(q, s, v, w);
    case Logic(_, p, q) => Local(p, s, v, w); Local(q, s, v, w);
    case ArrEq(a, b) => ArrLocal(a, s, v, w); ArrLocal(b, s, v, w);
    case _ =>
  }

  lemma MemLocal(ctx: Context, s: iset<nat>, v: Valuation, w: Valuation)
    requires CtxUses(ctx, s) && Agree(v, w, s)
    ensures MemOf(ctx, v) == MemOf(ctx, w)
  {
    forall id ensures MemOf(ctx, v)[id] == MemOf(ctx, w)[id] {
      ArrLocal(Lookup(ctx, id).arr, s, v, w);
    }
  }

  // ---------- running a path does not depend on array variables ----------

  ghost predicate SameScalars(v: Valuation, w: Valuation) {
    v.ints == w.ints && v.bools == w.bools
  }

  lemma {:induction false} IntValueScalar(t: IntTerm, m: Mem, v: Valuation, w: Valuation)
    requires SameScalars(v, w)
    ensures IntValue(t, m, v) == IntValue(t, m, w)
  {
    match t
    case Load(_, p) => IntValueScalar(p, m, v, w);
    case Binary(_, l, r) => IntValueScalar(l, m, v, w); IntValueScalar(r, m, v, w);
    case _ =>
  }

  lemma {:induction false} BoolValueScalar(t: BoolTerm, m: Mem, v: Valuation, w: Valuation)
    requires SameScalars(v, w)
    ensures BoolValue(t, m, v) == BoolValue(t, m, w)
  {
    match t
    case Compare(_, l, r) => IntValueScalar(l, m, v, w); IntValueScalar(r, m, v, w);
    case Combine(_, p, q) => BoolValueScalar(p, m, v, w); BoolValueScalar(q, m, v, w);
    case _ =>
  }

  lemma ActionScalar(a: Action, m: Mem, v: Valuation, w: Valuation)
    requires SameScalars(v, w)
    ensures Holds(a, m, v) == Holds(a, m, w) && After(a, m, v) == After(a, m, w)
  {
    match a
    case Equality(l, r) => IntValueScalar(l, m, v, w); IntValueScalar(r, m, v, w);
    case Inequality(l, r) => IntValueScalar(l, m, v, w); IntValueScalar(r, m, v, w);
    case BoolEquality(p, q) => BoolValueScalar(p, m, v, w); BoolValueScalar(q, m, v, w);
    case Write(_, p, x) => IntValueScalar(p, m, v, w); IntValueScalar(x, m, v, w);
  }

  lemma {:induction false} InvariantsScalar(p: seq<Predicate>, m: Mem, v: Valuation, w: Valuation)
    requires SameScalars(v, w)
    ensures InvariantsHold(p, m, v) == InvariantsHold(p, m, w)
  {
    if p != [] {
      ActionScalar(p[0].action, m, v, w);
      InvariantsScalar(p[1..], After(p[0].action, m, v), v, w);
    }
  }

  lemma {:induction false} RunScalar(p: seq<Predicate>, m: Mem, v: Valuation, w: Valuation)
    requires SameScalars(v, w)
    ensures Run(p, m, v) == Run(p, m, w)
  {
    if p != [] {
      ActionScalar(p[0].action, m, v, w);
      RunScalar(p[1..], After(p[0].action, m, v), v, w);
    }
  }

  // ---------- what the encoder's formulas mention ----------

  lemma UpdateUses(ctx: Context, id: ArrayId, val: Versioned, s: iset<nat>)
    requires CtxUses(ctx, s) && ArrUses(val.arr, s)
    ensures CtxUses(Update(ctx, id, val), s)
  {
    forall other ensures ArrUses(Lookup(Update(ctx, id, val), other).arr, s) {
      assert other != id ==> Lookup(Update(ctx, id, val), other) == Lookup(ctx, other);
    }
  }

  lemma {:induction false} EncodeIntUses(t: IntTerm, ctx: Context, s: iset<nat>)
    requires CtxUses(ctx, s)
    ensures IntUses(EncodeInt(t, ctx).0, s) && CtxUses(EncodeInt(t, ctx).1, s)
  {
    match t
    case Load(id, p) =>
      EncodeIntUses(p, ctx, s);
      UpdateUses(EncodeInt(p, ctx).1, id, NO_MEMORY, s);
    case Binary(_, l, r) => EncodeIntUses(l, ctx, s); EncodeIntUses(r, EncodeInt(l, ctx).1, s);
    case _ =>
  }

  lemma {:induction false} EncodeBoolUses(t: BoolTerm, ctx: Context, s: iset<nat>)
    requires CtxUses(ctx, s)
    ensures Uses(EncodeBool(t, ctx).0, s) && CtxUses(EncodeBool(t, ctx).1, s)
  {
    match t
    case Compare(_, l, r) => EncodeIntUses(l, ctx, s); EncodeIntUses(r, EncodeInt(l, ctx).1, s);
    case Combine(_, p, q) => EncodeBoolUses(p, ctx, s); EncodeBoolUses(q, EncodeBool(p, ctx).1, s);
    case _ =>
  }

  lemma EncodeActionUses(a: Action, ctx: Context, s: iset<nat>)
    requires CtxUses(ctx, s)
    ensures Uses(EncodeAction(a, ctx).0, s) && CtxUses(EncodeAction(a, ctx).1, s)
  {
    match a
    case Equality(l, r) => EncodeIntUses(l, ctx, s); EncodeIntUses(r, EncodeInt(l, ctx).1, s);
    case Inequality(l, r) => EncodeIntUses(l, ctx, s); EncodeIntUses(r, EncodeInt(l, ctx).1, s);
    case BoolEquality(p, q) => EncodeBoolUses(p, ctx, s); EncodeBoolUses(q, EncodeBool(p, ctx).1, s);
    case Write(id, p, x) =>
      EncodeIntUses(p, ctx, s);
      EncodeIntUses(x, EncodeInt(p, ctx).1, s);
      var c := EncodeInt(x, EncodeInt(p, ctx).1);
      UpdateUses(c.1, id, StoreVersioned(Lookup(c.1, id), EncodeInt(p, ctx).0, c.0), s);
  }

  ghost predicate FormulaUses(f: Formula, s: iset<nat>) {
    Uses(f.expr, s) && Uses(f.axiom, s)
  }

  lemma FormulaUsesMore(f: Formula, s: iset<nat>, t: iset<nat>)
    requires FormulaUses(f, s) && s <= t
    ensures FormulaUses(f, t)
  {
    UsesMore(f.expr, s, t);
    UsesMore(f.axiom, s, t);
  }

  lemma FormulaLocal(f: Formula, s: iset<nat>, v: Valuation, w: Valuation)
    requires FormulaUses(f, s) && Agree(v, w, s)
    ensures Eval(f.expr, v) == Eval(f.expr, w) && Eval(f.axiom, v) == Eval(f.axiom, w)
  {
    Local(f.expr, s, v, w);
    Local(f.axiom, s, v, w);
  }

  lemma JoinedUses(f: Formula, g: Formula, s: iset<nat>)
    requires FormulaUses(f, s) && FormulaUses(g, s)
    ensures FormulaUses(f.Conj(g), s) && FormulaUses(f.Disj(g), s) && FormulaUses(f.WithAxiom(g), s)
  {
    assert Uses(Logic(And, g.expr, g.axiom), s);
  }

  lemma {:induction false} EncodeDataUses(data: seq<Predicate>, ctx: Context, acc: Formula, s: iset<nat>)
    requires CtxUses(ctx, s) && FormulaUses(acc, s)
    ensures FormulaUses(EncodeData(data, ctx, acc).0, s) && CtxUses(EncodeData(data, ctx, acc).1, s)
  {
    if data != [] {
      EncodeActionUses(data[0].action, ctx, s);
      var r := EncodeAction(data[0].action, ctx);
      var f := Plain(r.0);
      JoinedUses(acc, f, s);
      EncodeDataUses(data[1..], r.1, if data[0].kind == INVARIANT then acc.WithAxiom(f) else acc.Conj(f), s);
    }
  }

  lemma {:induction false} ExternalizeUses(ctx: Context, ids: seq<ArrayId>, tick: nat, acc: Formula, s: iset<nat>)
    requires CtxUses(ctx, s) && tick in s && FormulaUses(acc, s)
    ensures FormulaUses(Externalize(ctx, ids, tick, acc).0, s)
    decreases |ids|
  {
    if ids != [] {
      var external := ArrVar(External(ids[0], tick));
      var eqn := Plain(ArrEq(external, Lookup(ctx, ids[0]).arr));
      UpdateUses(ctx, ids[0], Versioned(external, 0), s);
      JoinedUses(acc, eqn, s);
      ExternalizeUses(Update(ctx, ids[0], Versioned(external, 0)), ids[1..], tick, acc.Conj(eqn), s);
    }
  }

  lemma {:induction false} FreeUses(st: State, ctx: Context, tick: nat, s: iset<nat>)
    requires CtxUses(ctx, s)
    ensures var r := EncodeFree(st, ctx, tick);
      FormulaUses(r.0, s + Between(tick, r.2)) && CtxUses(r.1, s + Between(tick, r.2))
    decreases st, 1
  {
    match st
    case Basic(data) =>
      EncodeDataUses(data, ctx, TRUE, s);
      var r := EncodeFree(st, ctx, tick);
      JoinedUses(EncodeData(data, ctx, TRUE).0, TRUE, s);
      FormulaUsesMore(r.0, s, s + Between(tick, r.2));
      CtxUsesMore(r.1, s, s + Between(tick, r.2));
    case Chain(base, curr) =>
      var b := EncodeFree(base, ctx, tick);
      var c := EncodeFree(curr, b.1, b.2);
      var sb := s + Between(tick, b.2);
      FreeUses(base, ctx, tick, s);
      FreeUses(curr, b.1, b.2, sb);
      var all := s + Between(tick, c.2);
      assert sb + Between(b.2, c.2) == all;
      FormulaUsesMore(b.0, sb, all);
      JoinedUses(TRUE, b.0, all);
      JoinedUses(TRUE.Conj(b.0), c.0, all);
    case Choice(cs) =>
      var mine := tick + 1;
      CtxUsesMore(ctx, s, s + Between(tick, mine));
      FreeChoicesUse(cs, ctx, mine, mine, FALSE, [], s + Between(tick, mine));
      var r := EncodeFreeChoices(cs, ctx, mine, mine, FALSE, []);
      assert s + Between(tick, mine) + Between(mine, r.2) == s + Between(tick, r.2);
  }

  lemma {:induction false} FreeChoicesUse(cs: seq<State>, ctx: Context, mine: nat, tick: nat, res: Formula,
                                          alts: seq<Alternative>, s: iset<nat>)
    requires CtxUses(ctx, s) && mine in s && FormulaUses(res, s)
    ensures var r := EncodeFreeChoices(cs, ctx, mine, tick, res, alts);
      FormulaUses(r.0, s + Between(tick, r.2))
    decreases cs, 0
  {
    if cs == [] {
      FormulaUsesMore(res, s, s + Between(tick, tick));
    } else {
      var f := EncodeFree(cs[0], ctx, tick);
      FreeUses(cs[0], ctx, tick, s);
      var t := s + Between(tick, f.2);
      ExternalizeUses(f.1, f.1.order, mine, TRUE, t);
      var e := Externalize(f.1, f.1.order, mine, TRUE);
      FormulaUsesMore(res, s, t);
      CtxUsesMore(ctx, s, t);
      JoinedUses(f.0, e.0, t);
      JoinedUses(res, f.0.Conj(e.0), t);
      FreeChoicesUse(cs[1..], ctx, mine, f.2, res.Disj(f.0.Conj(e.0)), alts + [Alternative(BoolConst(true), e.1)], t);
      var r := EncodeFreeChoices(cs, ctx, mine, tick, res, alts);
      assert t + Between(f.2, r.2) == s + Between(tick, r.2);
    }
  }
}
