/** What merging does to memory, whatever the guards are, and what path mode means. */
module MergeMode {
  import opened SmtLogic
  import opened PredicateStates
  import opened Encoding
  import opened Meaning
  import opened Guards

  // ---------- contexts stay well formed, and versions only grow ----------

  lemma {:induction false} EncodeIntValid(t: IntTerm, ctx: Context)
    requires ctx.Valid()
    ensures EncodeInt(t, ctx).1.Valid()
  {
    match t
    case Load(_, ptr) =>
      EncodeIntValid(ptr, ctx);
    case Binary(_, l, r) =>
      EncodeIntValid(l, ctx);
      EncodeIntValid(r, EncodeInt(l, ctx).1);
    case _ =>
  }

  lemma {:induction false} EncodeBoolValid(t: BoolTerm, ctx: Context)
    requires ctx.Valid()
    ensures EncodeBool(t, ctx).1.Valid()
  {
    match t
    case Compare(_, l, r) =>
      EncodeIntValid(l, ctx);
      EncodeIntValid(r, EncodeInt(l, ctx).1);
    case Combine(_, p, q) =>
      EncodeBoolValid(p, ctx);
      EncodeBoolValid(q, EncodeBool(p, ctx).1);
    case _ =>
  }

  /** Each array is as before or has a higher version. */
  ghost predicate Grows(a: Context, b: Context) {
    forall id :: Lookup(b, id) == Lookup(a, id) || Lookup(b, id).version > Lookup(a, id).version
  }

  lemma EncodeActionGrows(a: Action, ctx: Context, v: Valuation)
    requires ctx.Valid()
    ensures EncodeAction(a, ctx).1.Valid() && Grows(ctx, EncodeAction(a, ctx).1)
  {
    match a
    case Equality(l, r) =>
      EncodeIntValid(l, ctx);
      EncodeIntValid(r, EncodeInt(l, ctx).1);
      EncodePairMeans(l, r, ctx, v);
    case Inequality(l, r) =>
      EncodeIntValid(l, ctx);
      EncodeIntValid(r, EncodeInt(l, ctx).1);
      EncodePairMeans(l, r, ctx, v);
    case BoolEquality(p, q) =>
      EncodeBoolValid(p, ctx);
      EncodeBoolValid(q, EncodeBool(p, ctx).1);
      EncodeBoolMeans(p, ctx, v);
      EncodeBoolMeans(q, EncodeBool(p, ctx).1, v);
    case Write(id, ptr, val) =>
      EncodeIntValid(ptr, ctx);
      EncodeIntValid(val, EncodeInt(ptr, ctx).1);
      EncodePairMeans(ptr, val, ctx, v);
  }

  lemma {:induction false} EncodeDataGrows(data: seq<Predicate>, ctx: Context, acc: Formula, v: Valuation)
    requires ctx.Valid()
    ensures EncodeData(data, ctx, acc).1.Valid() && Grows(ctx, EncodeData(data, ctx, acc).1)
  {
    if data != [] {
      EncodeActionGrows(data[0].action, ctx, v);
      var r := EncodeAction(data[0].action, ctx);
      var f := Plain(r.0);
      EncodeDataGrows(data[1..], r.1, if data[0].kind == INVARIANT then acc.WithAxiom(f) else acc.Conj(f), v);
    }
  }

  lemma {:induction false} NewIdsAre(known: seq<ArrayId>, ids: seq<ArrayId>)
    ensures forall id :: id in NewIds(known, ids) ==> id in ids
    ensures forall id :: id in ids ==> id in known || id in NewIds(known, ids)
    decreases |ids|
  {
    if ids != [] {
      if ids[0] in known {
        NewIdsAre(known, ids[1..]);
      } else {
        NewIdsAre(known + [ids[0]], ids[1..]);
      }
    }
  }

  lemma {:induction false} UnionOrderIs(order: seq<ArrayId>, alts: seq<Alternative>, id: ArrayId)
    ensures id in UnionOrder(order, alts) <==> id in order || exists a :: a in alts && id in a.ctx.order
    decreases |alts|
  {
    if alts != [] {
      NewIdsAre(order, alts[0].ctx.order);
      UnionOrderIs(order + NewIds(order, alts[0].ctx.order), alts[1..], id);
    }
  }

  /** An id outside the union is unknown to the default and to every alternative. */
  lemma OutsideUnion(ctx: Context, alts: seq<Alternative>, id: ArrayId)
    requires ctx.Valid() && forall a | a in alts :: a.ctx.Valid()
    requires id !in UnionOrder(ctx.order, alts)
    ensures Lookup(ctx, id) == NO_MEMORY
    ensures forall a | a in alts :: Lookup(a.ctx, id) == NO_MEMORY
  {
    UnionOrderIs(ctx.order, alts, id);
  }

  lemma SwitchOnGrows(ctx: Context, alts: seq<Alternative>)
    requires ctx.Valid() && forall a | a in alts :: a.ctx.Valid()
    ensures SwitchOn(ctx, alts).Valid() && Grows(ctx, SwitchOn(ctx, alts))
  {
    forall id
      ensures var b := SwitchOn(ctx, alts);
        Lookup(b, id) == Lookup(ctx, id) || Lookup(b, id).version > Lookup(ctx, id).version
    {
      if id !in UnionOrder(ctx.order, alts) {
        OutsideUnion(ctx, alts, id);
      }
    }
  }

  lemma {:induction false} EncodeGrows(s: State, ctx: Context, pathMode: bool, v: Valuation)
    requires ctx.Valid()
    ensures Encode(s, ctx, pathMode).1.Valid() && Grows(ctx, Encode(s, ctx, pathMode).1)
    decreases !pathMode, s, 1
  {
    match s
    case Basic(data) =>
      EncodeDataGrows(data, ctx, TRUE, v);
    case Chain(base, curr) =>
      EncodeGrows(base, ctx, pathMode, v);
      EncodeGrows(curr, Encode(base, ctx, pathMode).1, pathMode, v);
    case Choice(cs) =>
      if !pathMode {
        EncodeChoicesGrow(cs, ctx, FALSE, [], v);
        SwitchOnGrows(ctx, EncodeChoices(cs, ctx, false, FALSE, []).1);
      }
  }

  ghost predicate AllGrow(ctx: Context, alts: seq<Alternative>) {
    forall a | a in alts :: a.ctx.Valid() && Grows(ctx, a.ctx)
  }

  lemma {:induction false} EncodeChoicesGrow(cs: seq<State>, ctx: Context, res: Formula, alts: seq<Alternative>,
                                             v: Valuation)
    requires ctx.Valid() && AllGrow(ctx, alts)
    ensures AllGrow(ctx, EncodeChoices(cs, ctx, false, res, alts).1)
    decreases true, cs, 0
  {
    if cs != [] {
      var f := Encode(cs[0], ctx, false);
      EncodeGrows(cs[0], ctx, false, v);
      var path := PathOf(cs[0]);
      if path != cs[0] {
        EncodeGrows(path, f.1, true, v);
      }
      var a := AlternativeOf(cs[0], ctx);
      EncodeChoicesGrow(cs[1..], ctx, res.Disj(f.0), alts + [a], v);
    }
  }

  // ---------- merging ----------

  /** The version shortcut of the merge is sound in every reachable context: the array it
    * returns has the value of the full switch over the alternatives. */
  lemma MergeShortcutIsSound(ctx: Context, alts: seq<Alternative>, id: ArrayId, v: Valuation)
    requires AllGrow(ctx, alts)
    ensures EvalArr(MergeArrays(Lookup(ctx, id), ArraysOf(alts, id)).arr, v)
         == EvalArr(Switch(Unversioned(ArraysOf(alts, id)), Lookup(ctx, id).arr), v)
  {
    var d, arrs := Lookup(ctx, id), ArraysOf(alts, id);
    if d.version == MaxVersion(d.version, arrs) {
      forall j | 0 <= j < |arrs|
        ensures Unversioned(arrs)[j].1 == d.arr
      {
        assert arrs[j] in arrs && alts[j] in alts;
      }
      SwitchOfEqualCases(Unversioned(arrs), d.arr, v);
    }
  }

  /** Switching gives the memory of the last alternative whose guard is true. */
  lemma SwitchOnPicks(ctx: Context, alts: seq<Alternative>, k: nat, v: Valuation)
    requires ctx.Valid() && AllGrow(ctx, alts)
    requires k < |alts| && Eval(alts[k].guard, v)
    requires forall j | k < j < |alts| :: !Eval(alts[j].guard, v)
    ensures MemOf(SwitchOn(ctx, alts), v) == MemOf(alts[k].ctx, v)
  {
    forall id ensures MemOf(SwitchOn(ctx, alts), v)[id] == MemOf(alts[k].ctx, v)[id] {
      SwitchedArrayPicks(ctx, alts, k, id, v);
    }
  }

  lemma SwitchedArrayPicks(ctx: Context, alts: seq<Alternative>, k: nat, id: ArrayId, v: Valuation)
    requires ctx.Valid() && AllGrow(ctx, alts)
    requires k < |alts| && Eval(alts[k].guard, v)
    requires forall j | k < j < |alts| :: !Eval(alts[j].guard, v)
    ensures EvalArr(Lookup(SwitchOn(ctx, alts), id).arr, v) == EvalArr(Lookup(alts[k].ctx, id).arr, v)
  {
    assert alts[k] in alts;
    if id in UnionOrder(ctx.order, alts) {
      MergeShortcutIsSound(ctx, alts, id, v);
      SwitchPicksLastTrueGuard(Unversioned(ArraysOf(alts, id)), Lookup(ctx, id).arr, k, v);
    } else {
      OutsideUnion(ctx, alts, id);
    }
  }

  /** Switching keeps the memory if no guard is true. */
  lemma SwitchOnKeeps(ctx: Context, alts: seq<Alternative>, v: Valuation)
    requires ctx.Valid() && AllGrow(ctx, alts)
    requires forall j | 0 <= j < |alts| :: !Eval(alts[j].guard, v)
    ensures MemOf(SwitchOn(ctx, alts), v) == MemOf(ctx, v)
  {
    forall id ensures MemOf(SwitchOn(ctx, alts), v)[id] == MemOf(ctx, v)[id] {
      SwitchedArrayStays(ctx, alts, id, v);
    }
  }

  lemma SwitchedArrayStays(ctx: Context, alts: seq<Alternative>, id: ArrayId, v: Valuation)
    requires ctx.Valid() && AllGrow(ctx, alts)
    requires forall j | 0 <= j < |alts| :: !Eval(alts[j].guard, v)
    ensures EvalArr(Lookup(SwitchOn(ctx, alts), id).arr, v) == EvalArr(Lookup(ctx, id).arr, v)
  {
    if id in UnionOrder(ctx.order, alts) {
      MergeShortcutIsSound(ctx, alts, id, v);
      SwitchFallsThrough(Unversioned(ArraysOf(alts, id)), Lookup(ctx, id).arr, v);
    } else {
      OutsideUnion(ctx, alts, id);
    }
  }

  // ---------- path mode ----------

  lemma {:induction false} PureIntKeepsContext(t: IntTerm, ctx: Context)
    requires PureInt(t)
    ensures EncodeInt(t, ctx).1 == ctx
  {
    match t
    case Binary(_, l, r) =>
      PureIntKeepsContext(l, ctx);
      PureIntKeepsContext(r, ctx);
    case _ =>
  }

  lemma {:induction false} PureBoolKeepsContext(t: BoolTerm, ctx: Context)
    requires PureBool(t)
    ensures EncodeBool(t, ctx).1 == ctx
  {
    match t
    case Compare(_, l, r) =>
      PureIntKeepsContext(l, ctx);
      PureIntKeepsContext(r, ctx);
    case Combine(_, p, q) =>
      PureBoolKeepsContext(p, ctx);
      PureBoolKeepsContext(q, ctx);
    case _ =>
  }

  lemma {:induction false} PureDataKeepsContext(data: seq<Predicate>, ctx: Context, acc: Formula)
    requires PurePath(data)
    ensures EncodeData(data, ctx, acc).1 == ctx
  {
    if data != [] {
      var a := data[0].action;
      match a {
        case Equality(l, r) =>
          PureIntKeepsContext(l, ctx);
          PureIntKeepsContext(r, ctx);
        case Inequality(l, r) =>
          PureIntKeepsContext(l, ctx);
          PureIntKeepsContext(r, ctx);
        case BoolEquality(p, q) =>
          PureBoolKeepsContext(p, ctx);
          PureBoolKeepsContext(q, ctx);
      }
      PureDataKeepsContext(data[1..], ctx, acc.Conj(Plain(EncodeAction(a, ctx).0)));
    }
  }

  /** In path mode, a pure state becomes a formula that says some path of it holds. */
  lemma {:induction false} PathModeMeans(s: State, ctx: Context, v: Valuation)
    requires PureState(s)
    ensures Encode(s, ctx, true).1 == ctx
    ensures Eval(Encode(s, ctx, true).0.expr, v) <==> CanHold(s, v)
    decreases s, 1
  {
    match s
    case Basic(data) =>
      PureDataKeepsContext(data, ctx, TRUE);
      BasicExact(data, ctx, v);
      PurePathRuns(data, MemOf(ctx, v), BLANK, v);
    case Chain(base, curr) =>
      PathModeMeans(base, ctx, v);
      PathModeMeans(curr, ctx, v);
      CanHoldChain(base, curr, v);
      var f, g := Encode(base, ctx, true).0, Encode(curr, ctx, true).0;
      ConjMeans(TRUE, f, v);
      ConjMeans(TRUE.Conj(f), g, v);
    case Choice(cs) =>
      PathModeChoices(cs, ctx, FALSE, v);
      CanHoldChoice(cs, v);
  }

  lemma {:induction false} PathModeChoices(cs: seq<State>, ctx: Context, res: Formula, v: Valuation)
    requires forall c | c in cs :: PureState(c)
    ensures Eval(EncodeChoices(cs, ctx, true, res, []).0.expr, v)
      <==> Eval(res.expr, v) || exists c :: c in cs && CanHold(c, v)
    decreases cs, 0
  {
    if cs != [] {
      PathModeMeans(cs[0], ctx, v);
      var f := Encode(cs[0], ctx, true).0;
      DisjMeans(res, f, v);
      PathModeChoices(cs[1..], ctx, res.Disj(f), v);
      assert cs == [cs[0]] + cs[1..];
    }
  }

  // ---------- alternatives ----------

  /** The guard and context that the encoder collects for one alternative. */
  function AlternativeOf(c: State, ctx: Context): Alternative {
    var f := Encode(c, ctx, false);
    var path := PathOf(c);
    var g := if path == c then f else Encode(path, f.1, true);
    Alternative(g.0.expr, g.1)
  }

  function AlternativesOf(cs: seq<State>, ctx: Context): seq<Alternative> {
    seq(|cs|, i requires 0 <= i < |cs| => AlternativeOf(cs[i], ctx))
  }

  lemma {:induction false} ChoicesMean(cs: seq<State>, ctx: Context, res: Formula, alts: seq<Alternative>, v: Valuation)
    ensures var r := EncodeChoices(cs, ctx, false, res, alts);
      && r.1 == alts + AlternativesOf(cs, ctx)
      && (Eval(r.0.expr, v) <==>
            Eval(res.expr, v) || exists i :: 0 <= i < |cs| && Eval(Encode(cs[i], ctx, false).0.expr, v))
      && (Eval(r.0.axiom, v) <==>
            Eval(res.axiom, v) && forall i :: 0 <= i < |cs| ==> Eval(Encode(cs[i], ctx, false).0.axiom, v))
    decreases |cs|
  {
    if cs != [] {
      var f := Encode(cs[0], ctx, false).0;
      var a := AlternativeOf(cs[0], ctx);
      DisjMeans(res, f, v);
      ChoicesMean(cs[1..], ctx, res.Disj(f), alts + [a], v);
      var r := EncodeChoices(cs, ctx, false, res, alts);
      assert r == EncodeChoices(cs[1..], ctx, false, res.Disj(f), alts + [a]);
      assert alts + [a] + AlternativesOf(cs[1..], ctx) == alts + AlternativesOf(cs, ctx);
      forall i | 0 <= i < |cs|
        ensures i == 0 || cs[i] == cs[1..][i - 1]
      {}
      if exists i :: 0 <= i < |cs[1..]| && Eval(Encode(cs[1..][i], ctx, false).0.expr, v) {
        var i :| 0 <= i < |cs[1..]| && Eval(Encode(cs[1..][i], ctx, false).0.expr, v);
        assert cs[i + 1] == cs[1..][i];
      }
      if forall i :: 0 <= i < |cs| ==> Eval(Encode(cs[i], ctx, false).0.axiom, v) {
        forall i | 0 <= i < |cs[1..]|
          ensures Eval(Encode(cs[1..][i], ctx, false).0.axiom, v)
        {
          assert cs[i + 1] == cs[1..][i];
        }
      }
    }
  }

  /** What merging a choice collects, and what it does with that. */
  lemma CollectedAlternatives(cs: seq<State>, ctx: Context, v: Valuation)
    requires ctx.Valid()
    ensures Encode(Choice(cs), ctx, false).1 == SwitchOn(ctx, AlternativesOf(cs, ctx))
    ensures AllGrow(ctx, AlternativesOf(cs, ctx))
  {
    ChoicesMean(cs, ctx, FALSE, [], v);
    EncodeChoicesGrow(cs, ctx, FALSE, [], v);
    assert EncodeChoices(cs, ctx, false, FALSE, []).1 == AlternativesOf(cs, ctx);
  }

  /** Whatever the guards are: after a choice, the memory is that of the last alternative
    * whose guard is true. */
  lemma LastTrueGuardDecides(cs: seq<State>, ctx: Context, k: nat, v: Valuation)
    requires ctx.Valid() && k < |cs|
    requires Eval(AlternativesOf(cs, ctx)[k].guard, v)
    requires forall j | k < j < |cs| :: !Eval(AlternativesOf(cs, ctx)[j].guard, v)
    ensures MemOf(Encode(Choice(cs), ctx, false).1, v) == MemOf(AlternativesOf(cs, ctx)[k].ctx, v)
  {
    CollectedAlternatives(cs, ctx, v);
    SwitchOnPicks(ctx, AlternativesOf(cs, ctx), k, v);
  }

  /** After a choice none of whose guards is true, the memory is what it was before. */
  lemma NoTrueGuardKeepsMemory(cs: seq<State>, ctx: Context, v: Valuation)
    requires ctx.Valid()
    requires forall j | 0 <= j < |cs| :: !Eval(AlternativesOf(cs, ctx)[j].guard, v)
    ensures MemOf(Encode(Choice(cs), ctx, false).1, v) == MemOf(ctx, v)
  {
    CollectedAlternatives(cs, ctx, v);
    SwitchOnKeeps(ctx, AlternativesOf(cs, ctx), v);
  }
}
