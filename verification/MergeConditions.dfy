/** When the memory after a choice is right, also where path conditions overlap or read what
  * their alternative writes. */
module MergeConditions {
  import opened SmtLogic
  import opened PredicateStates
  import opened StateAlgebra
  import opened Encoding
  import opened Meaning
  import opened MergeMode
  import opened MergedMeaning
  import opened MergeModeExact

  /** Every path of the choice that executes ends in the merged memory. */
  ghost predicate MergedIsRight(cs: seq<State>, ctx: Context, v: Valuation) {
    forall p | p in AllPaths(cs) && Executes(p, MemOf(ctx, v), v) ::
      Run(p, MemOf(ctx, v), v) == Some(MemOf(Encode(Choice(cs), ctx, false).1, v))
  }

  /** The memory in which an alternative ends. */
  ghost function EndOf(c: State, ctx: Context, v: Valuation): Mem {
    MemOf(Encode(c, ctx, false).1, v)
  }

  /** The path condition of an alternative, in the memory in which the alternative ends. */
  ghost predicate GuardAtEnd(c: State, ctx: Context, v: Valuation) {
    SomePathExecutes(PathOf(c), EndOf(c, ctx, v), v)
  }

  /** The end of the last alternative whose path condition is true at its end. */
  ghost function DecidedEnd(cs: seq<State>, ctx: Context, v: Valuation): Mem
    decreases |cs|
  {
    if cs == [] then MemOf(ctx, v)
    else
      var n := |cs| - 1;
      if GuardAtEnd(cs[n], ctx, v) then EndOf(cs[n], ctx, v) else DecidedEnd(cs[..n], ctx, v)
  }

  // ---------- the computed guards ----------

  lemma {:induction false} FilterStaysReadOnly(s: State)
    requires ReadOnly(s)
    ensures ReadOnly(FilterByTypes(s, {PATH}))
    decreases s, 1
  {
    match s
    case Basic(data) => KeptDataStaysReadOnly(data);
    case Chain(base, curr) =>
      FilterStaysReadOnly(base);
      FilterStaysReadOnly(curr);
    case Choice(cs) => FilterAllStaysReadOnly(cs);
  }

  lemma {:induction false} FilterAllStaysReadOnly(cs: seq<State>)
    requires forall c | c in cs :: ReadOnly(c)
    ensures forall c | c in FilterAll(cs, {PATH}) :: ReadOnly(c)
    decreases cs, 0
  {
    if cs != [] {
      FilterStaysReadOnly(cs[0]);
      FilterAllStaysReadOnly(cs[1..]);
    }
  }

  lemma {:induction false} KeptDataStaysReadOnly(data: seq<Predicate>)
    requires ReadOnlyPath(data)
    ensures ReadOnlyPath(KeepKinds(data, {PATH}))
  {
    if data != [] {
      KeptDataStaysReadOnly(data[1..]);
    }
  }

  lemma {:induction false} ReadOnlyHasReadOnlyGuards(s: State)
    requires ReadOnly(s)
    ensures ReadOnlyGuards(s)
  {
    match s
    case Basic(_) =>
    case Chain(base, curr) =>
      ReadOnlyHasReadOnlyGuards(base);
      ReadOnlyHasReadOnlyGuards(curr);
    case Choice(cs) =>
      forall c | c in cs ensures ReadOnlyGuards(c) && ReadOnly(FilterByTypes(c, {PATH})) {
        ReadOnlyHasReadOnlyGuards(c);
        FilterStaysReadOnly(c);
      }
  }

  lemma ComputedGuard(c: State, ctx: Context, v: Valuation)
    requires ctx.Valid() && ReadOnly(FilterByTypes(c, {PATH}))
    ensures Eval(AlternativeOf(c, ctx).guard, v) <==> GuardAtEnd(c, ctx, v)
    ensures MemOf(AlternativeOf(c, ctx).ctx, v) == EndOf(c, ctx, v)
  {
    SimplifyStaysReadOnly(FilterByTypes(c, {PATH}));
    if PathOf(c) == c {
      ReadOnlyHasReadOnlyGuards(c);
      MergeMeans(c, ctx, v);
      ReadOnlyReaches(c, MemOf(ctx, v), v);
    } else {
      PathModeMeansIn(PathOf(c), Encode(c, ctx, false).1, v);
    }
  }

  lemma {:induction false} ChoiceEndsDecided(cs: seq<State>, ctx: Context, v: Valuation)
    requires ctx.Valid() && forall c | c in cs :: ReadOnly(FilterByTypes(c, {PATH}))
    ensures EndOf(Choice(cs), ctx, v) == DecidedEnd(cs, ctx, v)
  {
    forall i | 0 <= i < |cs|
      ensures Eval(AlternativesOf(cs, ctx)[i].guard, v) <==> GuardAtEnd(cs[i], ctx, v)
    {
      assert cs[i] in cs;
      ComputedGuard(cs[i], ctx, v);
    }
    if j :| 0 <= j < |cs| && GuardAtEnd(cs[j], ctx, v) {
      var k := LastAtEnd(cs, ctx, v, j);
      assert cs[k] in cs;
      ComputedGuard(cs[k], ctx, v);
      LastTrueGuardDecides(cs, ctx, k, v);
      DecidedEndIs(cs, ctx, v, k);
    } else {
      NoTrueGuardKeepsMemory(cs, ctx, v);
      NothingDecided(cs, ctx, v);
    }
  }

  lemma {:induction false} LastAtEnd(cs: seq<State>, ctx: Context, v: Valuation, j: nat) returns (k: nat)
    requires j < |cs| && GuardAtEnd(cs[j], ctx, v)
    ensures k < |cs| && GuardAtEnd(cs[k], ctx, v) && forall i | k < i < |cs| :: !GuardAtEnd(cs[i], ctx, v)
    decreases |cs| - j
  {
    if i: nat :| j < i < |cs| && GuardAtEnd(cs[i], ctx, v) {
      k := LastAtEnd(cs, ctx, v, i);
    } else {
      k := j;
    }
  }

  lemma {:induction false} DecidedEndIs(cs: seq<State>, ctx: Context, v: Valuation, k: nat)
    requires k < |cs| && GuardAtEnd(cs[k], ctx, v) && forall i | k < i < |cs| :: !GuardAtEnd(cs[i], ctx, v)
    ensures DecidedEnd(cs, ctx, v) == EndOf(cs[k], ctx, v)
    decreases |cs|
  {
    if k < |cs| - 1 {
      DecidedEndIs(cs[..|cs| - 1], ctx, v, k);
    }
  }

  lemma {:induction false} NothingDecided(cs: seq<State>, ctx: Context, v: Valuation)
    requires forall i | 0 <= i < |cs| :: !GuardAtEnd(cs[i], ctx, v)
    ensures DecidedEnd(cs, ctx, v) == MemOf(ctx, v)
    decreases |cs|
  {
    if cs != [] {
      NothingDecided(cs[..|cs| - 1], ctx, v);
    }
  }

  // ---------- exact conditions ----------

  /** With alternatives that are encoded exactly, and path conditions that do not write: the
    * memory after the choice is right exactly if every alternative that executes ends in the
    * memory of the last one whose path condition is still true at its end; where there is
    * none, in the memory from which it started. */
  lemma MergedIsRightIff(cs: seq<State>, ctx: Context, v: Valuation)
    requires ctx.Valid() && EachExact(cs, ctx, v) && forall c | c in cs :: ReadOnly(FilterByTypes(c, {PATH}))
    ensures MergedIsRight(cs, ctx, v) <==>
      forall c | c in cs && SomePathExecutes(c, MemOf(ctx, v), v) :: EndOf(c, ctx, v) == DecidedEnd(cs, ctx, v)
  {
    var m := MemOf(ctx, v);
    ChoiceEndsDecided(cs, ctx, v);
    if MergedIsRight(cs, ctx, v) {
      forall c | c in cs && SomePathExecutes(c, m, v) ensures EndOf(c, ctx, v) == DecidedEnd(cs, ctx, v) {
        var i :| 0 <= i < |cs| && cs[i] == c;
        var p :| p in Paths(c) && Executes(p, m, v);
        PathOfSomeAlternative(cs, p);
      }
    }
    if forall c | c in cs && SomePathExecutes(c, m, v) :: EndOf(c, ctx, v) == DecidedEnd(cs, ctx, v) {
      forall p | p in AllPaths(cs) && Executes(p, m, v)
        ensures Run(p, m, v) == Some(EndOf(Choice(cs), ctx, v))
      {
        PathOfSomeAlternative(cs, p);
        var i :| 0 <= i < |cs| && p in Paths(cs[i]);
        assert cs[i] in cs && SomePathExecutes(cs[i], m, v);
      }
    }
  }

  /** The same where path conditions do not read memory and simplify faithfully, so that it
    * does not matter where they are evaluated: the last alternative whose path condition
    * holds decides. */
  lemma MergedIsRightIffGuards(cs: seq<State>, ctx: Context, v: Valuation)
    requires ctx.Valid() && EachExact(cs, ctx, v) && forall c | c in cs :: GuardOk(c)
    ensures MergedIsRight(cs, ctx, v) <==>
      forall c, k | c in cs && SomePathExecutes(c, MemOf(ctx, v), v) && LastGuard(cs, k, v) ::
        EndOf(c, ctx, v) == EndOf(cs[k], ctx, v)
  {
    GuardsAtEnd(cs, ctx, v);
    MergedIsRightIff(cs, ctx, v);
    forall c | c in cs && SomePathExecutes(c, MemOf(ctx, v), v)
      ensures exists k :: LastGuard(cs, k, v) && EndOf(cs[k], ctx, v) == DecidedEnd(cs, ctx, v)
    {
      var k := DecidingGuard(cs, c, ctx, v);
    }
    forall k | LastGuard(cs, k, v) ensures DecidedEnd(cs, ctx, v) == EndOf(cs[k], ctx, v) {
      LastGuardDecides(cs, k, ctx, v);
    }
  }

  lemma GuardsAtEnd(cs: seq<State>, ctx: Context, v: Valuation)
    requires ctx.Valid() && EachExact(cs, ctx, v) && forall c | c in cs :: GuardOk(c)
    ensures forall c | c in cs :: ReadOnly(FilterByTypes(c, {PATH}))
    ensures forall c | c in cs :: GuardAtEnd(c, ctx, v) <==> GuardHolds(c, v)
  {
    forall c | c in cs
      ensures ReadOnly(FilterByTypes(c, {PATH}))
      ensures GuardAtEnd(c, ctx, v) <==> GuardHolds(c, v)
    {
      var i :| 0 <= i < |cs| && cs[i] == c;
      PureIsReadOnly(FilterByTypes(c, {PATH}));
      ComputedGuard(c, ctx, v);
      GuardMeans(c, ctx, v);
    }
  }

  lemma LastGuardDecides(cs: seq<State>, k: int, ctx: Context, v: Valuation)
    requires LastGuard(cs, k, v)
    requires forall c | c in cs :: GuardAtEnd(c, ctx, v) <==> GuardHolds(c, v)
    ensures DecidedEnd(cs, ctx, v) == EndOf(cs[k], ctx, v)
  {
    assert forall i | 0 <= i < |cs| :: cs[i] in cs;
    DecidedEndIs(cs, ctx, v, k);
  }

  /** If an alternative executes, there is a last one whose path condition holds. */
  lemma DecidingGuard(cs: seq<State>, c: State, ctx: Context, v: Valuation) returns (k: nat)
    requires c in cs && GuardOk(c) && SomePathExecutes(c, MemOf(ctx, v), v)
    requires forall c | c in cs :: GuardAtEnd(c, ctx, v) <==> GuardHolds(c, v)
    ensures LastGuard(cs, k, v) && EndOf(cs[k], ctx, v) == DecidedEnd(cs, ctx, v)
  {
    ExecutingHasGuard(c, MemOf(ctx, v), v);
    var j :| 0 <= j < |cs| && cs[j] == c;
    k := LastHolding(cs, j, v);
    LastGuardDecides(cs, k, ctx, v);
  }

  lemma ExecutingHasGuard(c: State, m: Mem, v: Valuation)
    requires GuardOk(c) && SomePathExecutes(c, m, v)
    ensures GuardHolds(c, v)
  {
    var p :| p in Paths(c) && Executes(p, m, v);
    ExecutionImpliesGuard(c, p, m, v);
  }

  lemma {:induction false} LastHolding(cs: seq<State>, j: nat, v: Valuation) returns (k: nat)
    requires j < |cs| && GuardHolds(cs[j], v)
    ensures LastGuard(cs, k, v)
    decreases |cs| - j
  {
    if i: nat :| j < i < |cs| && GuardHolds(cs[i], v) {
      k := LastHolding(cs, i, v);
    } else {
      k := j;
    }
  }

  ghost predicate LastGuard(cs: seq<State>, k: int, v: Valuation) {
    && 0 <= k < |cs| && GuardHolds(cs[k], v)
    && forall j | k < j < |cs| :: !GuardHolds(cs[j], v)
  }

  // ---------- nested states ----------

  /** Every path of the state that executes ends in the merged memory. */
  ghost predicate EndsMerged(s: State, m: Mem, v: Valuation) {
    forall p | p in Paths(s) && Executes(p, m, v) :: Run(p, m, v) == Some(MergedMem(s, m, v))
  }

  /** Merged memory is right for the state and for every part of it that execution comes to. */
  ghost predicate RightThroughout(s: State, m: Mem, v: Valuation) {
    && EndsMerged(s, m, v)
    && match s
       case Basic(_) => true
       case Chain(base, curr) =>
         && RightThroughout(base, m, v)
         && (SomePathExecutes(base, m, v) ==> RightThroughout(curr, MergedMem(base, m, v), v))
       case Choice(cs) => forall c | c in cs :: RightThroughout(c, m, v)
  }

  /** In every choice that execution comes to, each alternative that executes has the same
    * merged memory as the last one whose guard is true. */
  ghost predicate AgreesThroughout(s: State, m: Mem, v: Valuation) {
    match s
    case Basic(_) => true
    case Chain(base, curr) =>
      && AgreesThroughout(base, m, v)
      && (SomePathExecutes(base, m, v) ==> AgreesThroughout(curr, MergedMem(base, m, v), v))
    case Choice(cs) =>
      forall c | c in cs ::
        AgreesThroughout(c, m, v) && (SomePathExecutes(c, m, v) ==> MergedMem(c, m, v) == LastGuarded(cs, m, v))
  }

  /** The memory after a state is right, at every level, exactly if the choices agree. */
  lemma {:induction false} RightThroughoutIff(s: State, m: Mem, v: Valuation)
    ensures RightThroughout(s, m, v) <==> AgreesThroughout(s, m, v)
    decreases s
  {
    match s
    case Basic(data) => FinalIsRun(data, m, v);
    case Chain(base, curr) =>
      RightThroughoutIff(base, m, v);
      RightThroughoutIff(curr, MergedMem(base, m, v), v);
      if RightThroughout(base, m, v)
        && (SomePathExecutes(base, m, v) ==> RightThroughout(curr, MergedMem(base, m, v), v)) {
        ChainEndsMerged(base, curr, m, v);
      }
    case Choice(cs) =>
      forall c | c in cs ensures RightThroughout(c, m, v) <==> AgreesThroughout(c, m, v) {
        RightThroughoutIff(c, m, v);
      }
      if forall c | c in cs :: RightThroughout(c, m, v) {
        ChoiceEndsMergedIff(cs, m, v);
      }
  }

  lemma ChainEndsMerged(base: State, curr: State, m: Mem, v: Valuation)
    requires EndsMerged(base, m, v)
    requires SomePathExecutes(base, m, v) ==> EndsMerged(curr, MergedMem(base, m, v), v)
    ensures EndsMerged(Chain(base, curr), m, v)
  {
    forall p | p in Paths(Chain(base, curr)) && Executes(p, m, v)
      ensures Run(p, m, v) == Some(MergedMem(Chain(base, curr), m, v))
    {
      var x, y :| x in Paths(base) && y in Paths(curr) && p == Join(x, y);
      RunConcat(x, y, m, v);
    }
  }

  lemma ChoiceEndsMergedIff(cs: seq<State>, m: Mem, v: Valuation)
    requires forall c | c in cs :: EndsMerged(c, m, v)
    ensures EndsMerged(Choice(cs), m, v) <==>
      forall c | c in cs && SomePathExecutes(c, m, v) :: MergedMem(c, m, v) == LastGuarded(cs, m, v)
  {
    if EndsMerged(Choice(cs), m, v) {
      forall c | c in cs && SomePathExecutes(c, m, v) ensures MergedMem(c, m, v) == LastGuarded(cs, m, v) {
        var p :| p in Paths(c) && Executes(p, m, v);
        PathOfAlternative(cs, c, p);
        assert EndsMerged(c, m, v) && p in Paths(Choice(cs));
      }
    }
    if forall c | c in cs && SomePathExecutes(c, m, v) :: MergedMem(c, m, v) == LastGuarded(cs, m, v) {
      forall p | p in Paths(Choice(cs)) && Executes(p, m, v) ensures Run(p, m, v) == Some(LastGuarded(cs, m, v)) {
        var c := AlternativeOfPath(cs, p);
        assert EndsMerged(c, m, v) && SomePathExecutes(c, m, v);
      }
    }
  }

  lemma PathOfAlternative(cs: seq<State>, c: State, p: seq<Predicate>)
    requires c in cs && p in Paths(c)
    ensures p in Paths(Choice(cs))
  {
    var i :| 0 <= i < |cs| && cs[i] == c;
    assert p in Paths(cs[i]);
    PathOfSomeAlternative(cs, p);
  }

  lemma AlternativeOfPath(cs: seq<State>, p: seq<Predicate>) returns (c: State)
    requires p in Paths(Choice(cs))
    ensures c in cs && p in Paths(c)
  {
    PathOfSomeAlternative(cs, p);
    var i :| 0 <= i < |cs| && p in Paths(cs[i]);
    c := cs[i];
  }

  /** Where merged memory is right, merging reaches through a state exactly if a path of it
    * executes, and what it asserts covers the INVARIANT predicates of that path. */
  lemma {:induction false} RightReaches(s: State, m: Mem, v: Valuation)
    requires RightThroughout(s, m, v)
    ensures Reaches(s, m, v) <==> SomePathExecutes(s, m, v)
    ensures AllInvariants(s, m, v) ==> MeetsInvariants(s, m, v)
    decreases s
  {
    match s
    case Basic(_) =>
    case Chain(base, curr) =>
      RightReaches(base, m, v);
      if SomePathExecutes(base, m, v) {
        RightReaches(curr, MergedMem(base, m, v), v);
      }
      RightReachesInTurn(base, curr, m, v);
    case Choice(cs) =>
      forall c | c in cs
        ensures Reaches(c, m, v) <==> SomePathExecutes(c, m, v)
        ensures AllInvariants(c, m, v) ==> MeetsInvariants(c, m, v)
      {
        RightReaches(c, m, v);
      }
      ReachesOneOf(cs, m, v);
  }

  lemma ReachesOneOf(cs: seq<State>, m: Mem, v: Valuation)
    ensures SomePathExecutes(Choice(cs), m, v) <==> exists c :: c in cs && SomePathExecutes(c, m, v)
    ensures (forall c | c in cs :: MeetsInvariants(c, m, v)) ==> MeetsInvariants(Choice(cs), m, v)
  {
    forall p | p in Paths(Choice(cs)) && Executes(p, m, v)
      ensures exists c :: c in cs && p in Paths(c) && SomePathExecutes(c, m, v)
    {
      var c := AlternativeOfPath(cs, p);
    }
    forall c | c in cs && SomePathExecutes(c, m, v) ensures SomePathExecutes(Choice(cs), m, v) {
      var p :| p in Paths(c) && Executes(p, m, v);
      PathOfAlternative(cs, c, p);
    }
  }

  ghost predicate MeetsInvariants(s: State, m: Mem, v: Valuation) {
    forall p | p in Paths(s) && Executes(p, m, v) :: InvariantsHold(p, m, v)
  }

  lemma RightReachesInTurn(base: State, curr: State, m: Mem, v: Valuation)
    requires EndsMerged(base, m, v)
    ensures SomePathExecutes(Chain(base, curr), m, v)
      <==> SomePathExecutes(base, m, v) && SomePathExecutes(curr, MergedMem(base, m, v), v)
    ensures MeetsInvariants(base, m, v) && MeetsInvariants(curr, MergedMem(base, m, v), v)
      ==> MeetsInvariants(Chain(base, curr), m, v)
  {
    forall x, y | x in Paths(base) && y in Paths(curr)
      ensures Executes(Join(x, y), m, v) <==> Executes(x, m, v) && Executes(y, MergedMem(base, m, v), v)
      ensures Executes(Join(x, y), m, v) ==>
        (InvariantsHold(Join(x, y), m, v)
         <==> InvariantsHold(x, m, v) && InvariantsHold(y, MergedMem(base, m, v), v))
    {
      RunConcat(x, y, m, v);
    }
    if SomePathExecutes(base, m, v) && SomePathExecutes(curr, MergedMem(base, m, v), v) {
      var x :| x in Paths(base) && Executes(x, m, v);
      var y :| y in Paths(curr) && Executes(y, MergedMem(base, m, v), v);
      assert Join(x, y) in Paths(Chain(base, curr));
    }
  }

  /** What merging computes for a state is exact. */
  ghost predicate MergesExactly(s: State, ctx: Context, v: Valuation) {
    Exact(Encode(s, ctx, false).0, Encode(s, ctx, false).1, Paths(s), MemOf(ctx, v), v)
  }

  /** What merging computes is exact for the state and for every part of it that execution
    * comes to. */
  ghost predicate ExactThroughout(s: State, ctx: Context, v: Valuation) {
    && MergesExactly(s, ctx, v)
    && match s
       case Basic(_) => true
       case Chain(base, curr) =>
         && ExactThroughout(base, ctx, v)
         && (SomePathExecutes(base, MemOf(ctx, v), v) ==> ExactThroughout(curr, Encode(base, ctx, false).1, v))
       case Choice(cs) => forall c | c in cs :: ExactThroughout(c, ctx, v)
  }

  lemma RightMergesExactly(s: State, ctx: Context, v: Valuation)
    requires ctx.Valid() && ReadOnlyGuards(s)
    ensures MergesExactly(s, ctx, v) ==> EndsMerged(s, MemOf(ctx, v), v)
    ensures RightThroughout(s, MemOf(ctx, v), v) ==> MergesExactly(s, ctx, v)
  {
    MergeMeans(s, ctx, v);
    if RightThroughout(s, MemOf(ctx, v), v) {
      RightReaches(s, MemOf(ctx, v), v);
    }
  }

  lemma {:induction false} ExactIsRight(s: State, ctx: Context, v: Valuation)
    requires ctx.Valid() && ReadOnlyGuards(s)
    ensures ExactThroughout(s, ctx, v) <==> RightThroughout(s, MemOf(ctx, v), v)
    decreases s
  {
    RightMergesExactly(s, ctx, v);
    match s
    case Basic(_) =>
    case Chain(base, curr) =>
      MergeMeans(base, ctx, v);
      EncodeGrows(base, ctx, false, v);
      ExactIsRight(base, ctx, v);
      ExactIsRight(curr, Encode(base, ctx, false).1, v);
    case Choice(cs) =>
      forall c | c in cs ensures ExactThroughout(c, ctx, v) <==> RightThroughout(c, MemOf(ctx, v), v) {
        ExactIsRight(c, ctx, v);
      }
  }

  /** With path conditions that do not write, however they overlap and whatever they read:
    * merging is exact for a state, and for every part of it that execution comes to, exactly
    * if in every choice that it comes to each alternative that executes has the same merged
    * memory as the last one whose guard is true. */
  lemma MergingIsExactThroughoutIff(s: State, ctx: Context, v: Valuation)
    requires ctx.Valid() && ReadOnlyGuards(s)
    ensures ExactThroughout(s, ctx, v) <==> AgreesThroughout(s, MemOf(ctx, v), v)
  {
    ExactIsRight(s, ctx, v);
    RightThroughoutIff(s, MemOf(ctx, v), v);
  }
}
