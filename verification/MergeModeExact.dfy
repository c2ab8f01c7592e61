/** The memory-merging encoder is exact: its formula is true under a valuation exactly when
  * some path of the state executes, its context denotes the memory in which that path ends,
  * and its axiom says that the INVARIANT predicates of all alternatives hold, taken or not. */
module MergeModeExact {
  import opened SmtLogic
  import opened PredicateStates
  import opened StateAlgebra
  import opened Encoding
  import opened Meaning
  import opened Guards
  import opened MergeMode
  import opened MergedMeaning

  /** The PATH predicates of an alternative do not read memory, and simplifying them keeps
    * their meaning. */
  predicate GuardOk(c: State) {
    var g := FilterByTypes(c, {PATH});
    PureState(g) && Faithful(g)
  }

  /** Some path of the alternative satisfies its PATH predicates. */
  ghost predicate GuardHolds(c: State, v: Valuation) {
    CanHold(FilterByTypes(c, {PATH}), v)
  }

  /** The guards of every choice are well behaved, and no two of them hold together. */
  ghost predicate Mergeable(s: State, v: Valuation) {
    match s
    case Basic(_) => true
    case Chain(base, curr) => Mergeable(base, v) && Mergeable(curr, v)
    case Choice(cs) =>
      && (forall c | c in cs :: Mergeable(c, v) && GuardOk(c))
      && (forall i, j | 0 <= i < j < |cs| :: !(GuardHolds(cs[i], v) && GuardHolds(cs[j], v)))
  }

  lemma {:induction false} PureIsReadOnly(s: State)
    requires PureState(s)
    ensures ReadOnly(s)
  {
    match s
    case Basic(_) =>
    case Chain(base, curr) =>
      PureIsReadOnly(base);
      PureIsReadOnly(curr);
    case Choice(cs) =>
      forall c | c in cs ensures ReadOnly(c) {
        PureIsReadOnly(c);
      }
  }

  lemma {:induction false} MergeableGuardsAreReadOnly(s: State, v: Valuation)
    requires Mergeable(s, v)
    ensures ReadOnlyGuards(s)
  {
    match s
    case Basic(_) =>
    case Chain(base, curr) =>
      MergeableGuardsAreReadOnly(base, v);
      MergeableGuardsAreReadOnly(curr, v);
    case Choice(cs) =>
      forall c | c in cs ensures ReadOnlyGuards(c) && ReadOnly(FilterByTypes(c, {PATH})) {
        MergeableGuardsAreReadOnly(c, v);
        PureIsReadOnly(FilterByTypes(c, {PATH}));
      }
  }

  lemma {:induction false} KeptPathExecutes(p: seq<Predicate>, m: Mem, v: Valuation)
    requires Executes(p, m, v) && PurePath(KeepKinds(p, {PATH}))
    ensures Executes(KeepKinds(p, {PATH}), BLANK, v)
  {
    if p != [] {
      var keep := KeepKinds(p, {PATH});
      if p[0].kind == PATH {
        assert keep[0] == p[0] && keep[1..] == KeepKinds(p[1..], {PATH});
        PureActionIgnoresMemory(p[0].action, m, BLANK, v);
        assert After(p[0].action, BLANK, v) == BLANK;
      }
      KeptPathExecutes(p[1..], After(p[0].action, m, v), v);
    }
  }

  lemma ExecutionImpliesGuard(c: State, p: seq<Predicate>, m: Mem, v: Valuation)
    requires GuardOk(c) && p in Paths(c) && Executes(p, m, v)
    ensures GuardHolds(c, v)
  {
    var g := FilterByTypes(c, {PATH});
    FilterIsPathwise(c, {PATH});
    var q := KeepKinds(p, {PATH});
    assert q in Paths(g);
    PureStateHasPurePaths(g);
    KeptPathExecutes(p, m, v);
  }

  /** The guard that the encoder computes in the alternative's final context is the path
    * condition of the alternative, and computing it leaves the memory alone. */
  lemma GuardMeans(c: State, ctx: Context, v: Valuation)
    requires GuardOk(c)
    requires Exact(Encode(c, ctx, false).0, Encode(c, ctx, false).1, Paths(c), MemOf(ctx, v), v)
    ensures Eval(AlternativeOf(c, ctx).guard, v) <==> GuardHolds(c, v)
    ensures MemOf(AlternativeOf(c, ctx).ctx, v) == MemOf(Encode(c, ctx, false).1, v)
  {
    var g := FilterByTypes(c, {PATH});
    var path := PathOf(c);
    FaithfulMeans(g, v);
    SimplifyStaysPure(g);
    if path == c {
      PureStateHasPurePaths(c);
      forall p | p in Paths(c)
        ensures Executes(p, MemOf(ctx, v), v) == Executes(p, BLANK, v)
      {
        PurePathRuns(p, MemOf(ctx, v), BLANK, v);
      }
    } else {
      PathModeMeans(path, Encode(c, ctx, false).1, v);
    }
  }

  /** Merging is exact, for every nesting of states and every initial memory; the axiom is
    * that of all alternatives. */
  lemma {:induction false} MergeIsExact(s: State, ctx: Context, v: Valuation)
    requires ctx.Valid() && Mergeable(s, v)
    ensures Exact(Encode(s, ctx, false).0, Encode(s, ctx, false).1, Paths(s), MemOf(ctx, v), v)
    ensures Eval(Encode(s, ctx, false).0.axiom, v) <==> AllInvariants(s, MemOf(ctx, v), v)
    decreases s
  {
    MergeableGuardsAreReadOnly(s, v);
    MergeMeans(s, ctx, v);
    match s
    case Basic(data) =>
      BasicExact(data, ctx, v);
    case Chain(base, curr) =>
      var b := Encode(base, ctx, false);
      var c := Encode(curr, b.1, false);
      MergeIsExact(base, ctx, v);
      EncodeGrows(base, ctx, false, v);
      MergeIsExact(curr, b.1, v);
      ChainExact(b.0, c.0, Paths(base), Paths(curr), MemOf(ctx, v), b.1, c.1, v);
    case Choice(cs) =>
      forall i | 0 <= i < |cs|
        ensures Exact(Encode(cs[i], ctx, false).0, Encode(cs[i], ctx, false).1, Paths(cs[i]), MemOf(ctx, v), v)
      {
        assert cs[i] in cs;
        MergeIsExact(cs[i], ctx, v);
      }
      ChoiceIsExact(cs, ctx, v);
  }

  /** Some path executes and meets its INVARIANT predicates. */
  ghost predicate SomePathIsGood(s: State, m: Mem, v: Valuation) {
    exists p :: p in Paths(s) && Executes(p, m, v) && InvariantsHold(p, m, v)
  }

  /** What is asserted, the formula together with its axiom, says that some path executes and
    * meets its INVARIANT predicates, and that all alternatives meet theirs.  So it is right
    * about the paths exactly if a good path leaves no alternative with a failing one. */
  lemma MergeAssertsIff(s: State, ctx: Context, v: Valuation)
    requires ctx.Valid() && Mergeable(s, v)
    ensures var f, m := Encode(s, ctx, false).0, MemOf(ctx, v);
      && (Eval(f.expr, v) && Eval(f.axiom, v) <==> SomePathIsGood(s, m, v) && AllInvariants(s, m, v))
      && ((Eval(f.expr, v) && Eval(f.axiom, v) <==> SomePathIsGood(s, m, v))
          <==> (SomePathIsGood(s, m, v) ==> AllInvariants(s, m, v)))
  {
    MergeIsExact(s, ctx, v);
    var f, m := Encode(s, ctx, false).0, MemOf(ctx, v);
    if Eval(f.expr, v) && Eval(f.axiom, v) {
      var p :| p in Paths(s) && Executes(p, m, v);
      assert InvariantsHold(p, m, v);
    }
  }

  predicate NoInvariants(s: State) {
    match s
    case Basic(data) => forall i | 0 <= i < |data| :: data[i].kind != INVARIANT
    case Chain(base, curr) => NoInvariants(base) && NoInvariants(curr)
    case Choice(cs) => forall c | c in cs :: NoInvariants(c)
  }

  /** INVARIANT predicates stand outside choices. */
  predicate InvariantsAreStraight(s: State) {
    match s
    case Basic(_) => true
    case Chain(base, curr) => InvariantsAreStraight(base) && InvariantsAreStraight(curr)
    case Choice(cs) => forall c | c in cs :: NoInvariants(c)
  }

  lemma {:induction false} NothingToHold(s: State, m: Mem, v: Valuation)
    requires NoInvariants(s)
    ensures AllInvariants(s, m, v)
  {
    match s
    case Basic(data) => NothingToHoldOn(data, m, v);
    case Chain(base, curr) =>
      NothingToHold(base, m, v);
      NothingToHold(curr, MergedMem(base, m, v), v);
    case Choice(cs) =>
      forall c | c in cs ensures AllInvariants(c, m, v) {
        NothingToHold(c, m, v);
      }
  }

  lemma {:induction false} NothingToHoldOn(p: seq<Predicate>, m: Mem, v: Valuation)
    requires forall i | 0 <= i < |p| :: p[i].kind != INVARIANT
    ensures InvariantsHold(p, m, v)
  {
    if p != [] {
      NothingToHoldOn(p[1..], After(p[0].action, m, v), v);
    }
  }

  lemma {:induction false} GoodPathMeetsAll(s: State, ctx: Context, p: seq<Predicate>, v: Valuation)
    requires ctx.Valid() && Mergeable(s, v) && InvariantsAreStraight(s)
    requires p in Paths(s) && Executes(p, MemOf(ctx, v), v) && InvariantsHold(p, MemOf(ctx, v), v)
    ensures AllInvariants(s, MemOf(ctx, v), v)
    decreases s
  {
    var m := MemOf(ctx, v);
    match s
    case Basic(_) =>
    case Chain(base, curr) =>
      var b := Encode(base, ctx, false);
      var x, y :| x in Paths(base) && y in Paths(curr) && p == Join(x, y);
      RunConcat(x, y, m, v);
      MergeIsExact(base, ctx, v);
      MergeableGuardsAreReadOnly(base, v);
      MergeMeans(base, ctx, v);
      EncodeGrows(base, ctx, false, v);
      GoodPathMeetsAll(base, ctx, x, v);
      GoodPathMeetsAll(curr, b.1, y, v);
    case Choice(cs) =>
      forall c | c in cs ensures AllInvariants(c, m, v) {
        NothingToHold(c, m, v);
      }
  }

  /** With INVARIANT predicates outside choices only, what is asserted says exactly that some
    * path executes and meets them. */
  lemma StraightInvariantsAreExact(s: State, ctx: Context, v: Valuation)
    requires ctx.Valid() && Mergeable(s, v) && InvariantsAreStraight(s)
    ensures var f := Encode(s, ctx, false).0;
      Eval(f.expr, v) && Eval(f.axiom, v) <==> SomePathIsGood(s, MemOf(ctx, v), v)
  {
    var m := MemOf(ctx, v);
    MergeAssertsIff(s, ctx, v);
    if SomePathIsGood(s, m, v) {
      var p :| p in Paths(s) && Executes(p, m, v) && InvariantsHold(p, m, v);
      GoodPathMeetsAll(s, ctx, p, v);
    }
  }

  /** Every alternative is encoded exactly, in a context of its own. */
  ghost predicate EachExact(cs: seq<State>, ctx: Context, v: Valuation) {
    forall i | 0 <= i < |cs| ::
      Exact(Encode(cs[i], ctx, false).0, Encode(cs[i], ctx, false).1, Paths(cs[i]), MemOf(ctx, v), v)
  }

  lemma ChoiceIsExact(cs: seq<State>, ctx: Context, v: Valuation)
    requires ctx.Valid() && Mergeable(Choice(cs), v) && EachExact(cs, ctx, v)
    ensures Exact(Encode(Choice(cs), ctx, false).0, Encode(Choice(cs), ctx, false).1, AllPaths(cs), MemOf(ctx, v), v)
    ensures Eval(Encode(Choice(cs), ctx, false).0.axiom, v) <==> AllInvariants(Choice(cs), MemOf(ctx, v), v)
  {
    MergeableGuardsAreReadOnly(Choice(cs), v);
    MergeMeans(Choice(cs), ctx, v);
    var m := MemOf(ctx, v);
    var r := EncodeChoices(cs, ctx, false, FALSE, []);
    ChoicesMean(cs, ctx, FALSE, [], v);
    forall p | p in AllPaths(cs) && Executes(p, m, v)
      ensures Eval(r.0.expr, v)
      ensures Run(p, m, v) == Some(MemOf(SwitchOn(ctx, r.1), v))
      ensures Eval(r.0.axiom, v) ==> InvariantsHold(p, m, v)
    {
      PathOfSomeAlternative(cs, p);
      var i :| 0 <= i < |cs| && p in Paths(cs[i]);
      assert Eval(Encode(cs[i], ctx, false).0.expr, v);
      PathThroughChoice(cs, ctx, i, p, v);
    }
    if Eval(r.0.expr, v) {
      var i :| 0 <= i < |cs| && Eval(Encode(cs[i], ctx, false).0.expr, v);
      var p :| p in Paths(cs[i]) && Executes(p, m, v);
      PathOfSomeAlternative(cs, p);
    }
  }

  /** The merged memory is that of the path that executes. */
  lemma PathThroughChoice(cs: seq<State>, ctx: Context, k: nat, p: seq<Predicate>, v: Valuation)
    requires ctx.Valid() && Mergeable(Choice(cs), v) && EachExact(cs, ctx, v)
    requires k < |cs| && p in Paths(cs[k]) && Executes(p, MemOf(ctx, v), v)
    ensures Run(p, MemOf(ctx, v), v)
      == Some(MemOf(SwitchOn(ctx, EncodeChoices(cs, ctx, false, FALSE, []).1), v))
  {
    ChoicesMean(cs, ctx, FALSE, [], v);
    EncodeChoicesGrow(cs, ctx, FALSE, [], v);
    assert EncodeChoices(cs, ctx, false, FALSE, []).1 == AlternativesOf(cs, ctx);
    OnlyOneGuard(cs, ctx, k, p, v);
    SwitchOnPicks(ctx, AlternativesOf(cs, ctx), k, v);
  }

  lemma OnlyOneGuard(cs: seq<State>, ctx: Context, k: nat, p: seq<Predicate>, v: Valuation)
    requires Mergeable(Choice(cs), v) && EachExact(cs, ctx, v)
    requires k < |cs| && p in Paths(cs[k]) && Executes(p, MemOf(ctx, v), v)
    ensures Eval(AlternativesOf(cs, ctx)[k].guard, v)
    ensures forall j | 0 <= j < |cs| && j != k :: !Eval(AlternativesOf(cs, ctx)[j].guard, v)
    ensures MemOf(AlternativesOf(cs, ctx)[k].ctx, v) == MemOf(Encode(cs[k], ctx, false).1, v)
  {
    assert cs[k] in cs;
    ExecutionImpliesGuard(cs[k], p, MemOf(ctx, v), v);
    forall j | 0 <= j < |cs|
      ensures Eval(AlternativesOf(cs, ctx)[j].guard, v) <==> GuardHolds(cs[j], v)
    {
      assert cs[j] in cs;
      GuardMeans(cs[j], ctx, v);
    }
    GuardMeans(cs[k], ctx, v);
  }
}
