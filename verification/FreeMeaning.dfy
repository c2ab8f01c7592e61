/** What the free-variable encoder computes, without symbols: which memories the external
  * arrays of its choices can be made to denote, when its formula is to be true, its axiom,
  * or both. */
module FreeMeaning {
  import opened SmtLogic
  import opened PredicateStates
  import opened Encoding
  import opened Meaning
  import opened MergeMode
  import opened MergedMeaning
  import opened FreeMode

  // ---------- which arrays a state asks for ----------

  function IntIds(t: IntTerm): set<ArrayId> {
    match t
    case Load(id, p) => IntIds(p) + {id}
    case Binary(_, l, r) => IntIds(l) + IntIds(r)
    case _ => {}
  }

  function BoolIds(t: BoolTerm): set<ArrayId> {
    match t
    case Compare(_, l, r) => IntIds(l) + IntIds(r)
    case Combine(_, p, q) => BoolIds(p) + BoolIds(q)
    case _ => {}
  }

  function ActionIds(a: Action): set<ArrayId> {
    match a
    case Equality(l, r) => IntIds(l) + IntIds(r)
    case Inequality(l, r) => IntIds(l) + IntIds(r)
    case BoolEquality(p, q) => BoolIds(p) + BoolIds(q)
    case Write(id, p, x) => IntIds(p) + IntIds(x) + {id}
  }

  function DataIds(data: seq<Predicate>): set<ArrayId> {
    if data == [] then {} else ActionIds(data[0].action) + DataIds(data[1..])
  }

  function Ids(s: State): set<ArrayId>
    decreases s, 1
  {
    match s
    case Basic(data) => DataIds(data)
    case Chain(base, curr) => Ids(base) + Ids(curr)
    case Choice(cs) => AllIds(cs)
  }

  function AllIds(cs: seq<State>): set<ArrayId>
    decreases cs, 0
  {
    if cs == [] then {} else Ids(cs[0]) + AllIds(cs[1..])
  }

  /** The arrays of a context. */
  function Keys(ctx: Context): set<ArrayId> {
    set id | id in ctx.order
  }

  lemma UpdateKeys(ctx: Context, id: ArrayId, val: Versioned)
    requires ctx.Valid()
    ensures Update(ctx, id, val).Valid() && Keys(Update(ctx, id, val)) == Keys(ctx) + {id}
  {
    assert id in Update(ctx, id, val).order;
  }

  lemma {:induction false} IntKeys(t: IntTerm, ctx: Context)
    requires ctx.Valid()
    ensures EncodeInt(t, ctx).1.Valid() && Keys(EncodeInt(t, ctx).1) == Keys(ctx) + IntIds(t)
  {
    match t
    case Load(id, p) =>
      IntKeys(p, ctx);
      var c := EncodeInt(p, ctx).1;
      UpdateKeys(c, id, NO_MEMORY);
      assert id in c.order ==> Keys(c) + {id} == Keys(c);
    case Binary(_, l, r) => IntKeys(l, ctx); IntKeys(r, EncodeInt(l, ctx).1);
    case _ =>
  }

  lemma {:induction false} BoolKeys(t: BoolTerm, ctx: Context)
    requires ctx.Valid()
    ensures EncodeBool(t, ctx).1.Valid() && Keys(EncodeBool(t, ctx).1) == Keys(ctx) + BoolIds(t)
  {
    match t
    case Compare(_, l, r) => IntKeys(l, ctx); IntKeys(r, EncodeInt(l, ctx).1);
    case Combine(_, p, q) => BoolKeys(p, ctx); BoolKeys(q, EncodeBool(p, ctx).1);
    case _ =>
  }

  lemma {:induction false} DataKeys(data: seq<Predicate>, ctx: Context, acc: Formula)
    requires ctx.Valid()
    ensures EncodeData(data, ctx, acc).1.Valid() && Keys(EncodeData(data, ctx, acc).1) == Keys(ctx) + DataIds(data)
  {
    if data != [] {
      var r := EncodeAction(data[0].action, ctx);
      var f := Plain(r.0);
      ActionKeys(data[0].action, ctx);
      DataKeys(data[1..], r.1, if data[0].kind == INVARIANT then acc.WithAxiom(f) else acc.Conj(f));
    }
  }

  lemma ActionKeys(a: Action, ctx: Context)
    requires ctx.Valid()
    ensures EncodeAction(a, ctx).1.Valid() && Keys(EncodeAction(a, ctx).1) == Keys(ctx) + ActionIds(a)
  {
    match a
    case Equality(l, r) => IntKeys(l, ctx); IntKeys(r, EncodeInt(l, ctx).1);
    case Inequality(l, r) => IntKeys(l, ctx); IntKeys(r, EncodeInt(l, ctx).1);
    case BoolEquality(p, q) => BoolKeys(p, ctx); BoolKeys(q, EncodeBool(p, ctx).1);
    case Write(id, p, x) =>
      IntKeys(p, ctx);
      IntKeys(x, EncodeInt(p, ctx).1);
      var c := EncodeInt(x, EncodeInt(p, ctx).1);
      UpdateKeys(c.1, id, StoreVersioned(Lookup(c.1, id), EncodeInt(p, ctx).0, c.0));
  }

  lemma {:induction false} ExternalizeKeys(ctx: Context, ids: seq<ArrayId>, tick: nat, acc: Formula)
    requires ctx.Valid() && forall id | id in ids :: id in ctx.order
    ensures var r := Externalize(ctx, ids, tick, acc).1; r.Valid() && Keys(r) == Keys(ctx)
    decreases |ids|
  {
    if ids != [] {
      var external := ArrVar(External(ids[0], tick));
      var eqn := Plain(ArrEq(external, Lookup(ctx, ids[0]).arr));
      ExternalizeKeys(Update(ctx, ids[0], Versioned(external, 0)), ids[1..], tick, acc.Conj(eqn));
    }
  }

  lemma {:induction false} FreeKeys(s: State, ctx: Context, tick: nat)
    requires ctx.Valid()
    ensures var r := EncodeFree(s, ctx, tick).1; r.Valid() && Keys(r) == Keys(ctx) + Ids(s)
    decreases s, 1
  {
    match s
    case Basic(data) => DataKeys(data, ctx, TRUE);
    case Chain(base, curr) =>
      var b := EncodeFree(base, ctx, tick);
      FreeKeys(base, ctx, tick);
      FreeKeys(curr, b.1, b.2);
    case Choice(cs) =>
      var mine := tick + 1;
      FreeChoicesKeys(cs, ctx, mine, mine, FALSE, []);
      var r := EncodeFreeChoices(cs, ctx, mine, mine, FALSE, []);
      assert Cover([], Keys(ctx), {});
      assert Cover(r.1, Keys(ctx), {} + AllIds(cs));
      CoveredUnion(ctx, r.1, {} + AllIds(cs));
  }

  lemma CoveredUnion(ctx: Context, alts: seq<Alternative>, ids: set<ArrayId>)
    requires Cover(alts, Keys(ctx), ids)
    ensures forall id :: id in UnionOrder(ctx.order, alts) <==> id in Keys(ctx) + ids
  {
    forall id
      ensures id in UnionOrder(ctx.order, alts) <==> id in Keys(ctx) + ids
    {
      UnionOrderIs(ctx.order, alts, id);
      if id in ids {
        var a :| a in alts && id in Keys(a.ctx);
        assert id in a.ctx.order;
      }
      if a :| a in alts && id in a.ctx.order {
        assert id in Keys(a.ctx);
      }
    }
  }

  /** The arrays of the collected alternatives are those of the context and of `ids`. */
  ghost predicate Cover(alts: seq<Alternative>, keys: set<ArrayId>, ids: set<ArrayId>) {
    && (forall a | a in alts :: keys <= Keys(a.ctx) <= keys + ids)
    && (forall id | id in ids :: exists a :: a in alts && id in Keys(a.ctx))
  }

  lemma {:induction false} FreeChoicesKeys(cs: seq<State>, ctx: Context, mine: nat, tick: nat, res: Formula,
                                           alts: seq<Alternative>)
    requires ctx.Valid()
    ensures var r := EncodeFreeChoices(cs, ctx, mine, tick, res, alts);
      forall ids | Cover(alts, Keys(ctx), ids) :: Cover(r.1, Keys(ctx), ids + AllIds(cs))
    decreases cs, 0
  {
    var r := EncodeFreeChoices(cs, ctx, mine, tick, res, alts);
    if cs == [] {
      forall ids | Cover(alts, Keys(ctx), ids)
        ensures Cover(r.1, Keys(ctx), ids + AllIds(cs))
      {
        assert ids + AllIds(cs) == ids;
      }
    } else {
      var f := EncodeFree(cs[0], ctx, tick);
      FreeKeys(cs[0], ctx, tick);
      ExternalizeKeys(f.1, f.1.order, mine, TRUE);
      var e := Externalize(f.1, f.1.order, mine, TRUE);
      var a := Alternative(BoolConst(true), e.1);
      FreeChoicesKeys(cs[1..], ctx, mine, f.2, res.Disj(f.0.Conj(e.0)), alts + [a]);
      forall ids | Cover(alts, Keys(ctx), ids)
        ensures Cover(r.1, Keys(ctx), ids + AllIds(cs))
      {
        CoverOneMore(alts, a, Keys(ctx), ids, Ids(cs[0]));
        assert ids + Ids(cs[0]) + AllIds(cs[1..]) == ids + AllIds(cs);
      }
    }
  }

  lemma CoverOneMore(alts: seq<Alternative>, a: Alternative, keys: set<ArrayId>, ids: set<ArrayId>, more: set<ArrayId>)
    requires Cover(alts, keys, ids) && Keys(a.ctx) == keys + more
    ensures Cover(alts + [a], keys, ids + more)
  {
    assert (alts + [a])[|alts|] == a;
    forall id | id in ids + more
      ensures exists b :: b in alts + [a] && id in Keys(b.ctx)
    {
      if id in more {
        assert a in alts + [a] && id in Keys(a.ctx);
      } else {
        var b :| b in alts && id in Keys(b.ctx);
        assert b in alts + [a];
      }
    }
  }

  // ---------- externalizing ----------

  /** The external arrays of this tick are the arrays of the context. */
  ghost predicate Externalized(ctx: Context, tick: nat, v: Valuation) {
    forall id | id in ctx.order :: Equated(ctx, id, tick, v)
  }

  ghost predicate Equated(ctx: Context, id: ArrayId, tick: nat, v: Valuation) {
    v.arrays(External(id, tick)) == EvalArr(Lookup(ctx, id).arr, v)
  }

  lemma {:induction false} ExternalizeMeans(ctx: Context, ids: seq<ArrayId>, tick: nat, acc: Formula, v: Valuation)
    ensures var r := Externalize(ctx, ids, tick, acc).0;
      && (Eval(r.expr, v) <==> Eval(acc.expr, v) && forall id | id in ids :: Equated(ctx, id, tick, v))
      && Eval(r.axiom, v) == Eval(acc.axiom, v)
    decreases |ids|
  {
    if ids != [] {
      var external := ArrVar(External(ids[0], tick));
      var eqn := Plain(ArrEq(external, Lookup(ctx, ids[0]).arr));
      var next := Update(ctx, ids[0], Versioned(external, 0));
      ExternalizeMeans(next, ids[1..], tick, acc.Conj(eqn), v);
      ConjMeans(acc, eqn, v);
      EquatedStep(ctx, ids, tick, v, next);
    }
  }

  /** Equating the arrays of `ids` is equating the first, and the others after it. */
  lemma EquatedStep(ctx: Context, ids: seq<ArrayId>, tick: nat, v: Valuation, next: Context)
    requires ids != [] && next == Update(ctx, ids[0], Versioned(ArrVar(External(ids[0], tick)), 0))
    ensures (forall id | id in ids :: Equated(ctx, id, tick, v))
      <==> Equated(ctx, ids[0], tick, v) && forall id | id in ids[1..] :: Equated(next, id, tick, v)
  {
    assert ids == [ids[0]] + ids[1..];
    forall id
      ensures if id == ids[0] then Equated(next, id, tick, v)
              else Equated(next, id, tick, v) == Equated(ctx, id, tick, v)
    {
      LookupUpdated(ctx, ids[0], Versioned(ArrVar(External(ids[0], tick)), 0), id);
    }
  }

  lemma ExternalizeAllMeans(ctx: Context, tick: nat, v: Valuation)
    ensures Eval(Externalize(ctx, ctx.order, tick, TRUE).0.expr, v) <==> Externalized(ctx, tick, v)
    ensures Eval(Externalize(ctx, ctx.order, tick, TRUE).0.axiom, v)
  {
    ExternalizeMeans(ctx, ctx.order, tick, TRUE, v);
  }

  lemma FreeChoiceLookup(cs: seq<State>, ctx: Context, tick: nat, id: ArrayId)
    requires ctx.Valid()
    ensures var after := EncodeFree(Choice(cs), ctx, tick).1;
      Lookup(after, id) ==
        if id in Keys(ctx) + AllIds(cs) then Versioned(ArrVar(External(id, tick + 1)), 0) else NO_MEMORY
  {
    FreeKeys(Choice(cs), ctx, tick);
    var after := EncodeFree(Choice(cs), ctx, tick).1;
    assert id in after.order <==> id in Keys(after);
  }

  lemma {:induction false} IdsOfAlternative(cs: seq<State>, k: nat)
    requires k < |cs|
    ensures Ids(cs[k]) <= AllIds(cs)
  {
    if k > 0 {
      IdsOfAlternative(cs[1..], k - 1);
    }
  }

  // ---------- the choices of a formula ----------

  /** The tick at which alternative k is encoded; the tick at the end for k == |cs|. */
  function TickOf(cs: seq<State>, ctx: Context, tick: nat, k: nat): (t: nat)
    requires k <= |cs|
    ensures t >= tick
    decreases k
  {
    if k == 0 then tick else TickOf(cs[1..], ctx, EncodeFree(cs[0], ctx, tick).2, k - 1)
  }

  function AlternativeAt(cs: seq<State>, ctx: Context, tick: nat, k: nat): (Formula, Context, nat)
    requires k < |cs|
  {
    EncodeFree(cs[k], ctx, TickOf(cs, ctx, tick, k))
  }

  lemma AlternativeAfterFirst(cs: seq<State>, ctx: Context, tick: nat, k: nat)
    requires 0 < k < |cs|
    ensures AlternativeAt(cs, ctx, tick, k) == AlternativeAt(cs[1..], ctx, EncodeFree(cs[0], ctx, tick).2, k - 1)
  {
  }

  lemma {:induction false} EndsInOrder(cs: seq<State>, ctx: Context, tick: nat, k: nat)
    requires k < |cs|
    ensures AlternativeAt(cs, ctx, tick, k).2 <= TickOf(cs, ctx, tick, |cs|)
    decreases |cs|
  {
    if k > 0 {
      EndsInOrder(cs[1..], ctx, EncodeFree(cs[0], ctx, tick).2, k - 1);
    }
  }

  /** Some alternative is true, and the externals of the choice are its arrays. */
  ghost predicate SomeChosen(cs: seq<State>, ctx: Context, mine: nat, tick: nat, v: Valuation) {
    exists k: nat :: k < |cs| && ChosenAt(cs, ctx, mine, tick, k, v)
  }

  ghost predicate ChosenAt(cs: seq<State>, ctx: Context, mine: nat, tick: nat, k: nat, v: Valuation)
    requires k < |cs|
  {
    var f := AlternativeAt(cs, ctx, tick, k);
    Eval(f.0.expr, v) && Externalized(f.1, mine, v)
  }

  ghost predicate AxiomAt(cs: seq<State>, ctx: Context, tick: nat, k: nat, v: Valuation)
    requires k < |cs|
  {
    Eval(AlternativeAt(cs, ctx, tick, k).0.axiom, v)
  }

  ghost predicate AllAxioms(cs: seq<State>, ctx: Context, tick: nat, v: Valuation) {
    forall k: nat | k < |cs| :: AxiomAt(cs, ctx, tick, k, v)
  }

  lemma SomeChosenStep(cs: seq<State>, ctx: Context, mine: nat, tick: nat, v: Valuation)
    requires cs != []
    ensures SomeChosen(cs, ctx, mine, tick, v)
      <==> ChosenAt(cs, ctx, mine, tick, 0, v) || SomeChosen(cs[1..], ctx, mine, EncodeFree(cs[0], ctx, tick).2, v)
  {
    var next := EncodeFree(cs[0], ctx, tick).2;
    if SomeChosen(cs, ctx, mine, tick, v) {
      var k: nat :| k < |cs| && ChosenAt(cs, ctx, mine, tick, k, v);
      assert k > 0 ==> ChosenAt(cs[1..], ctx, mine, next, k - 1, v);
    }
    if SomeChosen(cs[1..], ctx, mine, next, v) {
      var k: nat :| k < |cs[1..]| && ChosenAt(cs[1..], ctx, mine, next, k, v);
      AlternativeAfterFirst(cs, ctx, tick, k + 1);
      assert ChosenAt(cs, ctx, mine, tick, k + 1, v);
    }
  }

  lemma AllAxiomsStep(cs: seq<State>, ctx: Context, tick: nat, v: Valuation)
    requires cs != []
    ensures AllAxioms(cs, ctx, tick, v)
      <==> AxiomAt(cs, ctx, tick, 0, v) && AllAxioms(cs[1..], ctx, EncodeFree(cs[0], ctx, tick).2, v)
  {
    var next := EncodeFree(cs[0], ctx, tick).2;
    forall k: nat | 0 < k < |cs|
      ensures AxiomAt(cs, ctx, tick, k, v) <==> AxiomAt(cs[1..], ctx, next, k - 1, v)
    {
      AlternativeAfterFirst(cs, ctx, tick, k);
    }
    if AllAxioms(cs, ctx, tick, v) {
      forall k: nat | k < |cs[1..]| ensures AxiomAt(cs[1..], ctx, next, k, v) {
        assert AxiomAt(cs, ctx, tick, k + 1, v);
      }
    }
  }

  lemma {:induction false} FreeChoicesMean(cs: seq<State>, ctx: Context, mine: nat, tick: nat, res: Formula,
                                           alts: seq<Alternative>, v: Valuation)
    ensures var r := EncodeFreeChoices(cs, ctx, mine, tick, res, alts);
      && r.2 == TickOf(cs, ctx, tick, |cs|)
      && (Eval(r.0.expr, v) <==> Eval(res.expr, v) || SomeChosen(cs, ctx, mine, tick, v))
      && (Eval(r.0.axiom, v) <==> Eval(res.axiom, v) && AllAxioms(cs, ctx, tick, v))
    decreases cs
  {
    if cs != [] {
      var f := EncodeFree(cs[0], ctx, tick);
      var e := Externalize(f.1, f.1.order, mine, TRUE);
      var g := f.0.Conj(e.0);
      ExternalizeAllMeans(f.1, mine, v);
      ConjMeans(f.0, e.0, v);
      DisjMeans(res, g, v);
      FreeChoicesMean(cs[1..], ctx, mine, f.2, res.Disj(g), alts + [Alternative(BoolConst(true), e.1)], v);
      SomeChosenStep(cs, ctx, mine, tick, v);
      AllAxiomsStep(cs, ctx, tick, v);
    }
  }

  lemma FreeChoiceMeans(cs: seq<State>, ctx: Context, tick: nat, v: Valuation)
    ensures var r := EncodeFree(Choice(cs), ctx, tick);
      && r.2 == TickOf(cs, ctx, tick + 1, |cs|)
      && (Eval(r.0.expr, v) <==> SomeChosen(cs, ctx, tick + 1, tick + 1, v))
      && (Eval(r.0.axiom, v) <==> AllAxioms(cs, ctx, tick + 1, v))
  {
    FreeChoicesMean(cs, ctx, tick + 1, tick + 1, FALSE, [], v);
    assert !Eval(FALSE.expr, v) && Eval(FALSE.axiom, v);
  }

  // ---------- the meaning ----------

  /** From memory `m`, in which the arrays `keys` are known, the state can end in `end`.
    * With `run`, the predicates of one alternative of each choice hold; with `inv`, so do
    * the INVARIANT predicates of all alternatives.  After a choice, an array that the
    * chosen alternative does not know, but another one does, has any contents; so have all
    * arrays after a choice in which no alternative need hold. */
  ghost predicate Solves(s: State, m: Mem, keys: set<ArrayId>, v: Valuation, run: bool, inv: bool, end: Mem)
    decreases s, 0
  {
    match s
    case Basic(data) =>
      && (inv ==> InvariantsHold(data, m, v))
      && (run ==> Executes(data, m, v))
      && end == Final(data, m, v)
    case Chain(base, curr) =>
      exists mid: Mem ::
        Solves(base, m, keys, v, run, inv, mid) && Solves(curr, mid, keys + Ids(base), v, run, inv, end)
    case Choice(cs) =>
      && SameOutside(keys + AllIds(cs), m, end)
      && (inv ==> forall c | c in cs :: CanMeet(c, m, keys, v))
      && (run ==> exists c, chosen: Mem ::
            c in cs && Solves(c, m, keys, v, true, inv, chosen) && SameOn(keys + Ids(c), chosen, end))
  }

  /** The INVARIANT predicates can hold, whether the others do or not. */
  ghost predicate CanMeet(s: State, m: Mem, keys: set<ArrayId>, v: Valuation)
    decreases s, 1
  {
    exists end: Mem :: Solves(s, m, keys, v, false, true, end)
  }

  ghost predicate SameOn(ids: set<ArrayId>, m: Mem, n: Mem) {
    forall id | id in ids :: m[id] == n[id]
  }

  ghost predicate SameOutside(ids: set<ArrayId>, m: Mem, n: Mem) {
    forall id | id !in ids :: m[id] == n[id]
  }

  lemma {:induction false} FinalScalar(p: seq<Predicate>, m: Mem, v: Valuation, w: Valuation)
    requires SameScalars(v, w)
    ensures Final(p, m, v) == Final(p, m, w)
  {
    if p != [] {
      ActionScalar(p[0].action, m, v, w);
      FinalScalar(p[1..], After(p[0].action, m, v), v, w);
    }
  }

  lemma {:induction false} SolvesScalar(s: State, m: Mem, keys: set<ArrayId>, v: Valuation, w: Valuation,
                                        run: bool, inv: bool, end: Mem)
    requires SameScalars(v, w) && Solves(s, m, keys, v, run, inv, end)
    ensures Solves(s, m, keys, w, run, inv, end)
    decreases s
  {
    match s
    case Basic(data) =>
      FinalScalar(data, m, v, w);
      RunScalar(data, m, v, w);
      InvariantsScalar(data, m, v, w);
    case Chain(base, curr) =>
      var mid: Mem :| Solves(base, m, keys, v, run, inv, mid)
        && Solves(curr, mid, keys + Ids(base), v, run, inv, end);
      SolvesScalar(base, m, keys, v, w, run, inv, mid);
      SolvesScalar(curr, mid, keys + Ids(base), v, w, run, inv, end);
    case Choice(cs) =>
      if inv {
        forall c | c in cs ensures CanMeet(c, m, keys, w) {
          assert CanMeet(c, m, keys, v);
          var other: Mem :| Solves(c, m, keys, v, false, true, other);
          SolvesScalar(c, m, keys, v, w, false, true, other);
        }
      }
      if run {
        var c, chosen: Mem :| c in cs && Solves(c, m, keys, v, true, inv, chosen) && SameOn(keys + Ids(c), chosen, end);
        SolvesScalar(c, m, keys, v, w, true, inv, chosen);
      }
  }

  // ---------- whatever the formula allows is a solution ----------

  ghost predicate Satisfied(f: Formula, run: bool, inv: bool, v: Valuation) {
    (run ==> Eval(f.expr, v)) && (inv ==> Eval(f.axiom, v))
  }

  lemma {:induction false} FreeSolves(s: State, ctx: Context, tick: nat, v: Valuation, run: bool, inv: bool)
    requires ctx.Valid() && Satisfied(EncodeFree(s, ctx, tick).0, run, inv, v)
    ensures Solves(s, MemOf(ctx, v), Keys(ctx), v, run, inv, MemOf(EncodeFree(s, ctx, tick).1, v))
    decreases s
  {
    var m := MemOf(ctx, v);
    match s
    case Basic(data) =>
      BasicMeans(data, ctx, v);
      EncodeDataEnds(data, ctx, TRUE, v);
    case Chain(base, curr) =>
      var b := EncodeFree(base, ctx, tick);
      ChainMeans(b.0, EncodeFree(curr, b.1, b.2).0, v);
      FreeKeys(base, ctx, tick);
      FreeSolves(base, ctx, tick, v, run, inv);
      FreeSolves(curr, b.1, b.2, v, run, inv);
    case Choice(cs) =>
      var mine := tick + 1;
      FreeChoiceMeans(cs, ctx, tick, v);
      if inv {
        forall c | c in cs ensures CanMeet(c, m, Keys(ctx), v) {
          var k: nat :| k < |cs| && cs[k] == c;
          assert AxiomAt(cs, ctx, mine, k, v);
          FreeSolves(c, ctx, TickOf(cs, ctx, mine, k), v, false, true);
        }
      }
      if run {
        var k: nat :| k < |cs| && ChosenAt(cs, ctx, mine, mine, k, v);
        assert inv ==> AxiomAt(cs, ctx, mine, k, v);
        var t := TickOf(cs, ctx, mine, k);
        FreeSolves(cs[k], ctx, t, v, true, inv);
        ChosenMemory(cs, ctx, tick, k, v);
        assert cs[k] in cs;
      }
      UnknownStay(cs, ctx, tick, v);
  }

  /** The choice denotes the memory of the alternative that was externalized, as far as that
    * alternative knows it. */
  lemma ChosenMemory(cs: seq<State>, ctx: Context, tick: nat, k: nat, v: Valuation)
    requires ctx.Valid() && k < |cs| && Externalized(AlternativeAt(cs, ctx, tick + 1, k).1, tick + 1, v)
    ensures SameOn(Keys(ctx) + Ids(cs[k]), MemOf(AlternativeAt(cs, ctx, tick + 1, k).1, v),
                   MemOf(EncodeFree(Choice(cs), ctx, tick).1, v))
  {
    var f := AlternativeAt(cs, ctx, tick + 1, k);
    FreeKeys(cs[k], ctx, TickOf(cs, ctx, tick + 1, k));
    IdsOfAlternative(cs, k);
    var after := EncodeFree(Choice(cs), ctx, tick).1;
    forall id | id in Keys(ctx) + Ids(cs[k])
      ensures MemOf(after, v)[id] == MemOf(f.1, v)[id]
    {
      FreeChoiceLookup(cs, ctx, tick, id);
      assert id in Keys(f.1);
    }
  }

  lemma UnknownStay(cs: seq<State>, ctx: Context, tick: nat, v: Valuation)
    requires ctx.Valid()
    ensures SameOutside(Keys(ctx) + AllIds(cs), MemOf(ctx, v), MemOf(EncodeFree(Choice(cs), ctx, tick).1, v))
  {
    forall id | id !in Keys(ctx) + AllIds(cs)
      ensures MemOf(ctx, v)[id] == MemOf(EncodeFree(Choice(cs), ctx, tick).1, v)[id]
    {
      FreeChoiceLookup(cs, ctx, tick, id);
      assert id !in Keys(ctx);
    }
  }

  // ---------- every solution is allowed by the formula ----------

  /** The valuation that gives the external arrays of one tick the contents of a memory. */
  ghost function Assign(v: Valuation, tick: nat, m: Mem): Valuation {
    Valuation(v.ints, v.bools, (x: ArrayVar) => if x.External? && x.tick == tick then m[x.id] else v.arrays(x))
  }

  /** Everything but the ticks in the window. */
  ghost function Outside(lo: nat, hi: nat): iset<nat> {
    iset t: nat | !Within(lo, t, hi)
  }

  /** The context knows no external array of a later tick. */
  ghost predicate Early(ctx: Context, used: iset<nat>, tick: nat) {
    ctx.Valid() && CtxUses(ctx, used) && forall t | t in used :: t <= tick
  }

  /** A valuation of the external arrays of the state that satisfies what is asked and in
    * which the context denotes the given memory. */
  ghost predicate Witnesses(s: State, ctx: Context, tick: nat, v: Valuation, w: Valuation, run: bool, inv: bool,
                            end: Mem) {
    var r := EncodeFree(s, ctx, tick);
    Agree(v, w, Outside(tick, r.2)) && Satisfied(r.0, run, inv, w) && MemOf(r.1, w) == end
  }

  lemma {:induction false} SolutionIsWitnessed(s: State, ctx: Context, tick: nat, v: Valuation, used: iset<nat>,
                                               run: bool, inv: bool, end: Mem) returns (w: Valuation)
    requires Early(ctx, used, tick) && Solves(s, MemOf(ctx, v), Keys(ctx), v, run, inv, end)
    ensures Witnesses(s, ctx, tick, v, w, run, inv, end)
    decreases s, 1
  {
    match s
    case Basic(data) =>
      w := v;
      BasicIsWitnessed(data, ctx, tick, v, run, inv, end);
    case Chain(base, curr) =>
      var mid: Mem :| Solves(base, MemOf(ctx, v), Keys(ctx), v, run, inv, mid)
        && Solves(curr, mid, Keys(ctx) + Ids(base), v, run, inv, end);
      w := ChainIsWitnessed(base, curr, ctx, tick, v, used, run, inv, mid, end);
    case Choice(cs) =>
      w := ChoiceIsWitnessed(cs, ctx, tick, v, used, run, inv, end);
  }

  lemma {:induction false} ChainIsWitnessed(base: State, curr: State, ctx: Context, tick: nat, v: Valuation,
                                            used: iset<nat>, run: bool, inv: bool, mid: Mem, end: Mem)
    returns (w: Valuation)
    requires Early(ctx, used, tick) && Solves(base, MemOf(ctx, v), Keys(ctx), v, run, inv, mid)
    requires Solves(curr, mid, Keys(ctx) + Ids(base), v, run, inv, end)
    ensures Witnesses(Chain(base, curr), ctx, tick, v, w, run, inv, end)
    decreases Chain(base, curr), 0
  {
    var b := EncodeFree(base, ctx, tick);
    var w1 := SolutionIsWitnessed(base, ctx, tick, v, used, run, inv, mid);
    NextSolves(base, curr, ctx, tick, v, w1, used, run, inv, mid, end);
    w := SolutionIsWitnessed(curr, b.1, b.2, w1, used + Between(tick, b.2), run, inv, end);
    ComposeWitnesses(base, curr, ctx, tick, v, w1, w, used, run, inv, mid, end);
  }

  lemma NextSolves(base: State, curr: State, ctx: Context, tick: nat, v: Valuation, w1: Valuation, used: iset<nat>,
                   run: bool, inv: bool, mid: Mem, end: Mem)
    requires Early(ctx, used, tick) && Witnesses(base, ctx, tick, v, w1, run, inv, mid)
    requires Solves(curr, mid, Keys(ctx) + Ids(base), v, run, inv, end)
    ensures var b := EncodeFree(base, ctx, tick);
      Early(b.1, used + Between(tick, b.2), b.2) && Solves(curr, MemOf(b.1, w1), Keys(b.1), w1, run, inv, end)
  {
    FreeUses(base, ctx, tick, used);
    FreeKeys(base, ctx, tick);
    SolvesScalar(curr, mid, Keys(ctx) + Ids(base), v, w1, run, inv, end);
  }

  lemma {:induction false} ChoiceIsWitnessed(cs: seq<State>, ctx: Context, tick: nat, v: Valuation, used: iset<nat>,
                                             run: bool, inv: bool, end: Mem)
    returns (w: Valuation)
    requires Early(ctx, used, tick) && Solves(Choice(cs), MemOf(ctx, v), Keys(ctx), v, run, inv, end)
    ensures Witnesses(Choice(cs), ctx, tick, v, w, run, inv, end)
    decreases Choice(cs), 0
  {
    var m := MemOf(ctx, v);
    var k, chosen := |cs|, m;
    if run {
      k, chosen := ChosenAlternative(cs, m, Keys(ctx), v, inv, end);
    }
    var u := CombineAlternatives(cs, ctx, tick + 1, v, used, inv, k, chosen);
    w := Assign(u, tick + 1, end);
    AssignWitnesses(cs, ctx, tick, v, u, used, run, inv, k, chosen, end);
  }

  lemma ChosenAlternative(cs: seq<State>, m: Mem, keys: set<ArrayId>, v: Valuation, inv: bool, end: Mem)
    returns (k: nat, chosen: Mem)
    requires Solves(Choice(cs), m, keys, v, true, inv, end)
    ensures k < |cs| && Solves(cs[k], m, keys, v, true, inv, chosen) && SameOn(keys + Ids(cs[k]), chosen, end)
  {
    var c: State;
    c, chosen :| c in cs && Solves(c, m, keys, v, true, inv, chosen) && SameOn(keys + Ids(c), chosen, end);
    k :| 0 <= k < |cs| && cs[k] == c;
  }

  lemma BasicIsWitnessed(data: seq<Predicate>, ctx: Context, tick: nat, v: Valuation, run: bool, inv: bool, end: Mem)
    requires Solves(Basic(data), MemOf(ctx, v), Keys(ctx), v, run, inv, end)
    ensures Witnesses(Basic(data), ctx, tick, v, v, run, inv, end)
  {
    BasicMeans(data, ctx, v);
    EncodeDataEnds(data, ctx, TRUE, v);
  }

  lemma ComposeWitnesses(base: State, curr: State, ctx: Context, tick: nat, v: Valuation, w1: Valuation, w: Valuation,
                         used: iset<nat>, run: bool, inv: bool, mid: Mem, end: Mem)
    requires Early(ctx, used, tick)
    requires Witnesses(base, ctx, tick, v, w1, run, inv, mid)
    requires var b := EncodeFree(base, ctx, tick); Witnesses(curr, b.1, b.2, w1, w, run, inv, end)
    ensures Witnesses(Chain(base, curr), ctx, tick, v, w, run, inv, end)
  {
    var b := EncodeFree(base, ctx, tick);
    var c := EncodeFree(curr, b.1, b.2);
    BaseStaysTrue(base, ctx, tick, w1, w, used, c.2);
    ChainMeans(b.0, c.0, w);
    AgreeInTurn(v, w1, w, tick, b.2, c.2);
    assert EncodeFree(Chain(base, curr), ctx, tick) == (TRUE.Conj(b.0).Conj(c.0), c.1, c.2);
  }

  lemma BaseStaysTrue(base: State, ctx: Context, tick: nat, w1: Valuation, w: Valuation, used: iset<nat>, hi: nat)
    requires Early(ctx, used, tick) && Agree(w1, w, Outside(EncodeFree(base, ctx, tick).2, hi))
    ensures var f := EncodeFree(base, ctx, tick);
      && Eval(f.0.expr, w1) == Eval(f.0.expr, w)
      && Eval(f.0.axiom, w1) == Eval(f.0.axiom, w)
      && MemOf(f.1, w1) == MemOf(f.1, w)
  {
    var f := EncodeFree(base, ctx, tick);
    var mentioned := used + Between(tick, f.2);
    FreeUses(base, ctx, tick, used);
    assert mentioned <= Outside(f.2, hi);
    FormulaLocal(f.0, mentioned, w1, w);
    MemLocal(f.1, mentioned, w1, w);
  }

  lemma AgreeInTurn(v: Valuation, w1: Valuation, w: Valuation, lo: nat, mid: nat, hi: nat)
    requires lo <= mid <= hi
    requires Agree(v, w1, Outside(lo, mid)) && Agree(w1, w, Outside(mid, hi))
    ensures Agree(v, w, Outside(lo, hi))
  {
    assert Outside(lo, hi) <= Outside(lo, mid) && Outside(lo, hi) <= Outside(mid, hi);
  }

  /** The axioms hold if asked for, and alternative k, if there is one, is true and ends in
    * `chosen`. */
  ghost predicate Combined(cs: seq<State>, ctx: Context, tick: nat, v: Valuation, w: Valuation, inv: bool, k: nat,
                           chosen: Mem) {
    && Agree(v, w, Outside(tick, TickOf(cs, ctx, tick, |cs|)))
    && (inv ==> AllAxioms(cs, ctx, tick, w))
    && (k < |cs| ==>
          Eval(AlternativeAt(cs, ctx, tick, k).0.expr, w) && MemOf(AlternativeAt(cs, ctx, tick, k).1, w) == chosen)
  }

  /** Alternatives use external arrays of different ticks, so that they can be satisfied one
    * by one. */
  lemma {:induction false} CombineAlternatives(cs: seq<State>, ctx: Context, tick: nat, v: Valuation, used: iset<nat>,
                                               inv: bool, k: nat, chosen: Mem) returns (w: Valuation)
    requires Early(ctx, used, tick)
    requires inv ==> forall c | c in cs :: CanMeet(c, MemOf(ctx, v), Keys(ctx), v)
    requires k < |cs| ==> Solves(cs[k], MemOf(ctx, v), Keys(ctx), v, true, inv, chosen)
    ensures Combined(cs, ctx, tick, v, w, inv, k, chosen)
    decreases cs, 0
  {
    if cs == [] {
      w := v;
    } else {
      var m := MemOf(ctx, v);
      var f := EncodeFree(cs[0], ctx, tick);
      var w1 := v;
      if k == 0 {
        w1 := SolutionIsWitnessed(cs[0], ctx, tick, v, used, true, inv, chosen);
      } else if inv {
        assert cs[0] in cs && CanMeet(cs[0], m, Keys(ctx), v);
        var other: Mem :| Solves(cs[0], m, Keys(ctx), v, false, true, other);
        w1 := SolutionIsWitnessed(cs[0], ctx, tick, v, used, false, true, other);
      }
      var next := if k == 0 then |cs[1..]| else k - 1;
      MemLocal(ctx, used, v, w1);
      RestStaysSolvable(cs[1..], m, Keys(ctx), v, w1, inv, next, chosen);
      w := CombineAlternatives(cs[1..], ctx, f.2, w1, used, inv, next, chosen);
      CombineFirst(cs, ctx, tick, v, w1, w, used, inv, k, chosen);
    }
  }

  lemma RestStaysSolvable(cs: seq<State>, m: Mem, keys: set<ArrayId>, v: Valuation, w: Valuation, inv: bool, k: nat,
                          chosen: Mem)
    requires SameScalars(v, w)
    requires inv ==> forall c | c in cs :: CanMeet(c, m, keys, v)
    requires k < |cs| ==> Solves(cs[k], m, keys, v, true, inv, chosen)
    ensures inv ==> forall c | c in cs :: CanMeet(c, m, keys, w)
    ensures k < |cs| ==> Solves(cs[k], m, keys, w, true, inv, chosen)
  {
    if inv {
      forall c | c in cs ensures CanMeet(c, m, keys, w) {
        assert CanMeet(c, m, keys, v);
        var other: Mem :| Solves(c, m, keys, v, false, true, other);
        SolvesScalar(c, m, keys, v, w, false, true, other);
      }
    }
    if k < |cs| {
      SolvesScalar(cs[k], m, keys, v, w, true, inv, chosen);
    }
  }

  lemma CombineFirst(cs: seq<State>, ctx: Context, tick: nat, v: Valuation, w1: Valuation, w: Valuation,
                     used: iset<nat>, inv: bool, k: nat, chosen: Mem)
    requires cs != [] && Early(ctx, used, tick)
    requires var f := EncodeFree(cs[0], ctx, tick);
      && Agree(v, w1, Outside(tick, f.2))
      && (inv ==> Eval(f.0.axiom, w1))
      && (k == 0 ==> Eval(f.0.expr, w1) && MemOf(f.1, w1) == chosen)
      && Combined(cs[1..], ctx, f.2, w1, w, inv, if k == 0 then |cs[1..]| else k - 1, chosen)
    ensures Combined(cs, ctx, tick, v, w, inv, k, chosen)
  {
    var f := EncodeFree(cs[0], ctx, tick);
    var end := TickOf(cs, ctx, tick, |cs|);
    BaseStaysTrue(cs[0], ctx, tick, w1, w, used, end);
    AllAxiomsStep(cs, ctx, tick, w);
    AgreeInTurn(v, w1, w, tick, f.2, end);
    if 0 < k < |cs| {
      AlternativeAfterFirst(cs, ctx, tick, k);
    }
  }

  /** The externals of the choice may hold any memory that agrees with the chosen one. */
  lemma AssignWitnesses(cs: seq<State>, ctx: Context, tick: nat, v: Valuation, u: Valuation, used: iset<nat>,
                        run: bool, inv: bool, k: nat, chosen: Mem, end: Mem)
    requires Early(ctx, used, tick) && Combined(cs, ctx, tick + 1, v, u, inv, k, chosen)
    requires SameOutside(Keys(ctx) + AllIds(cs), MemOf(ctx, v), end)
    requires run ==> k < |cs| && SameOn(Keys(ctx) + Ids(cs[k]), chosen, end)
    ensures Witnesses(Choice(cs), ctx, tick, v, Assign(u, tick + 1, end), run, inv, end)
  {
    AssignSatisfies(cs, ctx, tick, v, u, used, run, inv, k, chosen, end);
    AssignStays(cs, ctx, tick, v, u, inv, k, chosen, end);
    AssignedMemory(cs, ctx, tick, v, Assign(u, tick + 1, end), end);
  }

  lemma AssignStays(cs: seq<State>, ctx: Context, tick: nat, v: Valuation, u: Valuation, inv: bool, k: nat,
                    chosen: Mem, end: Mem)
    requires Combined(cs, ctx, tick + 1, v, u, inv, k, chosen)
    ensures Agree(v, Assign(u, tick + 1, end), Outside(tick, TickOf(cs, ctx, tick + 1, |cs|)))
  {
    AssignAgrees(v, u, tick + 1, TickOf(cs, ctx, tick + 1, |cs|), end);
  }

  lemma AssignSatisfies(cs: seq<State>, ctx: Context, tick: nat, v: Valuation, u: Valuation, used: iset<nat>,
                        run: bool, inv: bool, k: nat, chosen: Mem, end: Mem)
    requires Early(ctx, used, tick) && Combined(cs, ctx, tick + 1, v, u, inv, k, chosen)
    requires run ==> k < |cs| && SameOn(Keys(ctx) + Ids(cs[k]), chosen, end)
    ensures var r := EncodeFree(Choice(cs), ctx, tick);
      Satisfied(r.0, run, inv, Assign(u, tick + 1, end)) && r.2 == TickOf(cs, ctx, tick + 1, |cs|)
  {
    if inv {
      AssignKeepsAxioms(cs, ctx, tick, u, used, end);
    }
    if run {
      AssignChooses(cs, ctx, tick, u, used, k, chosen, end);
    }
    ChoiceSatisfied(cs, ctx, tick, run, inv, Assign(u, tick + 1, end));
  }

  lemma ChoiceSatisfied(cs: seq<State>, ctx: Context, tick: nat, run: bool, inv: bool, w: Valuation)
    requires (run ==> SomeChosen(cs, ctx, tick + 1, tick + 1, w)) && (inv ==> AllAxioms(cs, ctx, tick + 1, w))
    ensures var r := EncodeFree(Choice(cs), ctx, tick);
      Satisfied(r.0, run, inv, w) && r.2 == TickOf(cs, ctx, tick + 1, |cs|)
  {
    FreeChoiceMeans(cs, ctx, tick, w);
  }

  lemma AssignKeepsAxioms(cs: seq<State>, ctx: Context, tick: nat, u: Valuation, used: iset<nat>, end: Mem)
    requires Early(ctx, used, tick) && AllAxioms(cs, ctx, tick + 1, u)
    ensures AllAxioms(cs, ctx, tick + 1, Assign(u, tick + 1, end))
  {
    var mine := tick + 1;
    var w := Assign(u, mine, end);
    forall k: nat | k < |cs| ensures AxiomAt(cs, ctx, mine, k, w) {
      assert AxiomAt(cs, ctx, mine, k, u);
      AssignIsLocal(cs, ctx, tick, u, used, k, end);
    }
  }

  lemma AssignChooses(cs: seq<State>, ctx: Context, tick: nat, u: Valuation, used: iset<nat>, k: nat, chosen: Mem,
                      end: Mem)
    requires Early(ctx, used, tick) && k < |cs| && SameOn(Keys(ctx) + Ids(cs[k]), chosen, end)
    requires Eval(AlternativeAt(cs, ctx, tick + 1, k).0.expr, u)
    requires MemOf(AlternativeAt(cs, ctx, tick + 1, k).1, u) == chosen
    ensures SomeChosen(cs, ctx, tick + 1, tick + 1, Assign(u, tick + 1, end))
  {
    var w := Assign(u, tick + 1, end);
    AssignIsLocal(cs, ctx, tick, u, used, k, end);
    AssignExternalizes(cs, ctx, tick, w, k, chosen, end);
    assert ChosenAt(cs, ctx, tick + 1, tick + 1, k, w);
  }

  lemma AssignAgrees(v: Valuation, u: Valuation, mine: nat, last: nat, end: Mem)
    requires 0 < mine <= last && Agree(v, u, Outside(mine, last))
    ensures Agree(v, Assign(u, mine, end), Outside(mine - 1, last))
  {
    assert Outside(mine - 1, last) <= Outside(mine, last) && mine !in Outside(mine - 1, last);
  }

  lemma AssignIsLocal(cs: seq<State>, ctx: Context, tick: nat, u: Valuation, used: iset<nat>, k: nat, end: Mem)
    requires Early(ctx, used, tick) && k < |cs|
    ensures var f, w := AlternativeAt(cs, ctx, tick + 1, k), Assign(u, tick + 1, end);
      && Eval(f.0.expr, u) == Eval(f.0.expr, w)
      && Eval(f.0.axiom, u) == Eval(f.0.axiom, w)
      && MemOf(f.1, u) == MemOf(f.1, w)
  {
    var t := TickOf(cs, ctx, tick + 1, k);
    var f, w := EncodeFree(cs[k], ctx, t), Assign(u, tick + 1, end);
    FreeUses(cs[k], ctx, t, used);
    var mentioned := used + Between(t, f.2);
    assert tick + 1 !in mentioned;
    assert Agree(u, w, mentioned);
    FormulaLocal(f.0, mentioned, u, w);
    MemLocal(f.1, mentioned, u, w);
  }

  lemma AssignExternalizes(cs: seq<State>, ctx: Context, tick: nat, w: Valuation, k: nat, chosen: Mem, end: Mem)
    requires ctx.Valid() && k < |cs| && SameOn(Keys(ctx) + Ids(cs[k]), chosen, end)
    requires MemOf(AlternativeAt(cs, ctx, tick + 1, k).1, w) == chosen
    requires forall id :: w.arrays(External(id, tick + 1)) == end[id]
    ensures Externalized(AlternativeAt(cs, ctx, tick + 1, k).1, tick + 1, w)
  {
    var f := AlternativeAt(cs, ctx, tick + 1, k);
    FreeKeys(cs[k], ctx, TickOf(cs, ctx, tick + 1, k));
    forall id | id in f.1.order
      ensures Equated(f.1, id, tick + 1, w)
    {
      assert id in Keys(f.1);
      assert MemOf(f.1, w)[id] == chosen[id];
    }
  }

  lemma AssignedMemory(cs: seq<State>, ctx: Context, tick: nat, v: Valuation, w: Valuation, end: Mem)
    requires ctx.Valid() && SameOutside(Keys(ctx) + AllIds(cs), MemOf(ctx, v), end)
    requires forall id :: w.arrays(External(id, tick + 1)) == end[id]
    ensures MemOf(EncodeFree(Choice(cs), ctx, tick).1, w) == end
  {
    var after := MemOf(EncodeFree(Choice(cs), ctx, tick).1, w);
    forall id ensures after[id] == end[id] {
      AssignedArray(cs, ctx, tick, v, w, id, end[id]);
    }
    assert after == end;
  }

  lemma AssignedArray(cs: seq<State>, ctx: Context, tick: nat, v: Valuation, w: Valuation, id: ArrayId,
                      contents: ArrVal)
    requires ctx.Valid() && w.arrays(External(id, tick + 1)) == contents
    requires id !in Keys(ctx) + AllIds(cs) ==> MemOf(ctx, v)[id] == contents
    ensures MemOf(EncodeFree(Choice(cs), ctx, tick).1, w)[id] == contents
  {
    FreeChoiceLookup(cs, ctx, tick, id);
    assert id !in Keys(ctx) ==> Lookup(ctx, id) == NO_MEMORY;
  }

  // ---------- main result ----------

  /** For every state and every memory: the external arrays that the state introduces can be
    * chosen so that its formula is true, its axiom is, or both are, with its context
    * denoting `end`, exactly when the state can end in `end` in that way. */
  lemma FreeMeans(s: State, ctx: Context, tick: nat, v: Valuation, used: iset<nat>, run: bool, inv: bool, end: Mem)
    requires Early(ctx, used, tick)
    ensures (exists w :: Witnesses(s, ctx, tick, v, w, run, inv, end))
      <==> Solves(s, MemOf(ctx, v), Keys(ctx), v, run, inv, end)
  {
    if exists w :: Witnesses(s, ctx, tick, v, w, run, inv, end) {
      var w :| Witnesses(s, ctx, tick, v, w, run, inv, end);
      FreeSolves(s, ctx, tick, w, run, inv);
      SolvesScalar(s, MemOf(ctx, w), Keys(ctx), w, v, run, inv, end);
      CtxUsesMore(ctx, used, Outside(tick, EncodeFree(s, ctx, tick).2));
      MemLocal(ctx, Outside(tick, EncodeFree(s, ctx, tick).2), v, w);
    }
    if Solves(s, MemOf(ctx, v), Keys(ctx), v, run, inv, end) {
      var w := SolutionIsWitnessed(s, ctx, tick, v, used, run, inv, end);
    }
  }
}
