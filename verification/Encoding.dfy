/** The encoder of predicate states into formulas, as functions: the symbolic memory it
  * threads through a state, and the two ways it joins the alternatives of a choice. */
module Encoding {
  import opened SmtLogic
  import opened PredicateStates

  // ---------- symbolic memory ----------

  datatype Versioned = Versioned(arr: ArrExpr, version: nat)

  /** The arrays of an execution context.  `order` lists the ids in the order in which the
    * context iterates over them. */
  datatype Context = Context(order: seq<ArrayId>, arrays: map<ArrayId, Versioned>) {
    ghost predicate Valid() {
      forall id :: id in order <==> id in arrays
    }
  }

  /** Every array starts out filled with 0xff. */
  const NO_MEMORY := Versioned(Default(0xff), 0)

  /** The array of `id`, which comes into being when it is first asked for. */
  function Lookup(ctx: Context, id: ArrayId): Versioned {
    if id in ctx.arrays then ctx.arrays[id] else NO_MEMORY
  }

  function Update(ctx: Context, id: ArrayId, val: Versioned): Context {
    Context(if id in ctx.arrays then ctx.order else ctx.order + [id], ctx.arrays[id := val])
  }

  /** Asking for an array enters it into the context. */
  function Touch(ctx: Context, id: ArrayId): Context {
    if id in ctx.arrays then ctx else Update(ctx, id, NO_MEMORY)
  }

  function StoreVersioned(m: Versioned, ix: IntExpr, val: IntExpr): Versioned {
    Versioned(Store(m.arr, ix, val), m.version + 1)
  }

  // ---------- merging arrays ----------

  function MaxVersion(version: nat, alts: seq<(BoolExpr, Versioned)>): (m: nat)
    ensures m >= version
    ensures forall a | a in alts :: a.1.version <= m
    ensures m == version || exists a | a in alts :: a.1.version == m
    decreases |alts|
  {
    if alts == [] then version
    else
      var n := |alts| - 1;
      var m := MaxVersion(version, alts[..n]);
      if m < alts[n].1.version then alts[n].1.version else m
  }

  function Unversioned(alts: seq<(BoolExpr, Versioned)>): seq<(BoolExpr, ArrExpr)> {
    seq(|alts|, i requires 0 <= i < |alts| => (alts[i].0, alts[i].1.arr))
  }

  /** When no alternative has a higher version than the default, the default is returned. */
  function MergeArrays(default: Versioned, alts: seq<(BoolExpr, Versioned)>): Versioned {
    var m := MaxVersion(default.version, alts);
    if default.version == m then default
    else Versioned(Switch(Unversioned(alts), default.arr), m + 1)
  }

  datatype Alternative = Alternative(guard: BoolExpr, ctx: Context)

  function ArraysOf(alts: seq<Alternative>, id: ArrayId): seq<(BoolExpr, Versioned)> {
    seq(|alts|, i requires 0 <= i < |alts| => (alts[i].guard, Lookup(alts[i].ctx, id)))
  }

  /** The ids of `order`, then those of the alternatives that are not listed yet. */
  function UnionOrder(order: seq<ArrayId>, alts: seq<Alternative>): seq<ArrayId>
    decreases |alts|
  {
    if alts == [] then order
    else UnionOrder(order + NewIds(order, alts[0].ctx.order), alts[1..])
  }

  function NewIds(known: seq<ArrayId>, ids: seq<ArrayId>): seq<ArrayId>
    decreases |ids|
  {
    if ids == [] then []
    else if ids[0] in known then NewIds(known, ids[1..])
    else [ids[0]] + NewIds(known + [ids[0]], ids[1..])
  }

  function MergedArray(ctx: Context, alts: seq<Alternative>, id: ArrayId): Versioned {
    MergeArrays(Lookup(ctx, id), ArraysOf(alts, id))
  }

  /** `switchOn`: each array becomes the merge of its alternatives. */
  function SwitchOn(ctx: Context, alts: seq<Alternative>): Context {
    var ids := UnionOrder(ctx.order, alts);
    Context(ids, map id | id in ids :: MergedArray(ctx, alts, id))
  }

  /** `externalSwitchOn`: each array becomes the external variable of this choice. */
  function ExternalSwitchOn(ctx: Context, alts: seq<Alternative>, tick: nat): Context {
    var ids := UnionOrder(ctx.order, alts);
    Context(ids, map id | id in ids :: Versioned(ArrVar(External(id, tick)), 0))
  }

  /** `externalizeEverythingMutable`: one equation per array of the context, after which
    * the array is the external variable. */
  function Externalize(ctx: Context, ids: seq<ArrayId>, tick: nat, acc: Formula): (Formula, Context)
    decreases |ids|
  {
    if ids == [] then (acc, ctx)
    else
      var external := ArrVar(External(ids[0], tick));
      var eqn := Plain(ArrEq(external, Lookup(ctx, ids[0]).arr));
      Externalize(Update(ctx, ids[0], Versioned(external, 0)), ids[1..], tick, acc.Conj(eqn))
  }

  // ---------- terms and predicates ----------

  function EncodeInt(t: IntTerm, ctx: Context): (IntExpr, Context) {
    match t
    case Const(n) => (Num(n), ctx)
    case Value(x) => (IntVar(x), ctx)
    case Load(id, ptr) =>
      var p := EncodeInt(ptr, ctx);
      var c := Touch(p.1, id);
      (Select(Lookup(c, id).arr, p.0), c)
    case Binary(op, l, r) =>
      var a := EncodeInt(l, ctx);
      var b := EncodeInt(r, a.1);
      (Arith(op, a.0, b.0), b.1)
  }

  function EncodeBool(t: BoolTerm, ctx: Context): (BoolExpr, Context) {
    match t
    case BoolLit(b) => (BoolConst(b), ctx)
    case Flag(x) => (BoolVar(x), ctx)
    case Compare(op, l, r) =>
      var a := EncodeInt(l, ctx);
      var b := EncodeInt(r, a.1);
      (Cmp(op, a.0, b.0), b.1)
    case Combine(op, p, q) =>
      var a := EncodeBool(p, ctx);
      var b := EncodeBool(q, a.1);
      (Logic(op, a.0, b.0), b.1)
  }

  function EncodeAction(a: Action, ctx: Context): (BoolExpr, Context) {
    match a
    case Equality(l, r) =>
      var x := EncodeInt(l, ctx);
      var y := EncodeInt(r, x.1);
      (Cmp(Eq, x.0, y.0), y.1)
    case Inequality(l, r) =>
      var x := EncodeInt(l, ctx);
      var y := EncodeInt(r, x.1);
      (Cmp(Neq, x.0, y.0), y.1)
    case BoolEquality(p, q) =>
      var x := EncodeBool(p, ctx);
      var y := EncodeBool(q, x.1);
      (BoolEq(x.0, y.0), y.1)
    case Write(id, ptr, val) =>
      var p := EncodeInt(ptr, ctx);
      var v := EncodeInt(val, p.1);
      (BoolConst(true), Update(v.1, id, StoreVersioned(Lookup(v.1, id), p.0, v.0)))
  }

  /** Predicates in order; an INVARIANT goes to the axiom instead of the formula. */
  function EncodeData(data: seq<Predicate>, ctx: Context, acc: Formula): (Formula, Context) {
    if data == [] then (acc, ctx)
    else
      var r := EncodeAction(data[0].action, ctx);
      var f := Plain(r.0);
      EncodeData(data[1..], r.1, if data[0].kind == INVARIANT then acc.WithAxiom(f) else acc.Conj(f))
  }

  // ---------- states, merging memory under path conditions ----------

  function PathOf(choice: State): State {
    Simplify(FilterByTypes(choice, {PATH}))
  }

  /** Path mode only produces a formula: memory is not merged. */
  function Encode(s: State, ctx: Context, pathMode: bool): (Formula, Context)
    decreases !pathMode, s, 1
  {
    match s
    case Basic(data) =>
      var r := EncodeData(data, ctx, TRUE);
      (r.0.Conj(TRUE), r.1)
    case Chain(base, curr) =>
      var b := Encode(base, ctx, pathMode);
      var c := Encode(curr, b.1, pathMode);
      (TRUE.Conj(b.0).Conj(c.0), c.1)
    case Choice(cs) =>
      var r := EncodeChoices(cs, ctx, pathMode, FALSE, []);
      (r.0, if pathMode then ctx else SwitchOn(ctx, r.1))
  }

  function EncodeChoices(cs: seq<State>, ctx: Context, pathMode: bool, res: Formula, alts: seq<Alternative>)
    : (Formula, seq<Alternative>)
    decreases !pathMode, cs, 0
  {
    if cs == [] then (res, alts)
    else
      var f := Encode(cs[0], ctx, pathMode);
      if pathMode then EncodeChoices(cs[1..], ctx, pathMode, res.Disj(f.0), alts)
      else
        var path := PathOf(cs[0]);
        var g := if path == cs[0] then f else Encode(path, f.1, true);
        EncodeChoices(cs[1..], ctx, pathMode, res.Disj(f.0), alts + [Alternative(g.0.expr, g.1)])
  }

  // ---------- states, leaving memory to free variables ----------

  /** The tick counts the choices encoded so far. */
  function EncodeFree(s: State, ctx: Context, tick: nat): (r: (Formula, Context, nat))
    ensures r.2 >= tick
    decreases s, 1
  {
    match s
    case Basic(data) =>
      var r := EncodeData(data, ctx, TRUE);
      (r.0.Conj(TRUE), r.1, tick)
    case Chain(base, curr) =>
      var b := EncodeFree(base, ctx, tick);
      var c := EncodeFree(curr, b.1, b.2);
      (TRUE.Conj(b.0).Conj(c.0), c.1, c.2)
    case Choice(cs) =>
      var mine := tick + 1;
      var r := EncodeFreeChoices(cs, ctx, mine, mine, FALSE, []);
      (r.0, ExternalSwitchOn(ctx, r.1, mine), r.2)
  }

  function EncodeFreeChoices(cs: seq<State>, ctx: Context, mine: nat, tick: nat, res: Formula, alts: seq<Alternative>)
    : (r: (Formula, seq<Alternative>, nat))
    ensures r.2 >= tick
    decreases cs, 0
  {
    if cs == [] then (res, alts, tick)
    else
      var f := EncodeFree(cs[0], ctx, tick);
      var e := Externalize(f.1, f.1.order, mine, TRUE);
      EncodeFreeChoices(cs[1..], ctx, mine, f.2, res.Disj(f.0.Conj(e.0)), alts + [Alternative(BoolConst(true), e.1)])
  }
}
