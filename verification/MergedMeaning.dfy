/** What the memory-merging encoder computes, without symbols: the memory after a state, when
  * its formula is true, and when its axiom is. */
module MergedMeaning {
  import opened SmtLogic
  import opened PredicateStates
  import opened StateAlgebra
  import opened Encoding
  import opened Meaning
  import opened MergeMode

  // ---------- predicates that do not write ----------

  predicate ReadOnlyPath(p: seq<Predicate>) {
    forall i | 0 <= i < |p| :: !p[i].action.Write?
  }

  predicate ReadOnly(s: State) {
    match s
    case Basic(data) => ReadOnlyPath(data)
    case Chain(base, curr) => ReadOnly(base) && ReadOnly(curr)
    case Choice(cs) => forall c | c in cs :: ReadOnly(c)
  }

  /** No PATH predicate of an alternative is a store. */
  predicate ReadOnlyGuards(s: State) {
    match s
    case Basic(_) => true
    case Chain(base, curr) => ReadOnlyGuards(base) && ReadOnlyGuards(curr)
    case Choice(cs) => forall c | c in cs :: ReadOnlyGuards(c) && ReadOnly(FilterByTypes(c, {PATH}))
  }

  lemma {:induction false} ReadOnlyRun(p: seq<Predicate>, m: Mem, v: Valuation)
    requires ReadOnlyPath(p)
    ensures Final(p, m, v) == m
  {
    if p != [] {
      ReadOnlyRun(p[1..], m, v);
    }
  }

  lemma {:induction false} ReadOnlyPaths(s: State)
    requires ReadOnly(s)
    ensures forall p | p in Paths(s) :: ReadOnlyPath(p)
    decreases s
  {
    match s
    case Basic(_) =>
    case Chain(base, curr) =>
      ReadOnlyPaths(base);
      ReadOnlyPaths(curr);
    case Choice(cs) =>
      forall p | p in AllPaths(cs) ensures ReadOnlyPath(p) {
        PathOfSomeAlternative(cs, p);
        var i :| 0 <= i < |cs| && p in Paths(cs[i]);
        ReadOnlyPaths(cs[i]);
      }
  }

  lemma {:induction false} SimplifyStaysReadOnly(s: State)
    requires ReadOnly(s)
    ensures ReadOnly(Simplify(s))
    decreases s, 1
  {
    match s
    case Basic(_) =>
    case Chain(base, curr) =>
      SimplifyStaysReadOnly(base);
      SimplifyStaysReadOnly(curr);
    case Choice(cs) => KeptStayReadOnly(cs);
  }

  lemma {:induction false} KeptStayReadOnly(cs: seq<State>)
    requires forall c | c in cs :: ReadOnly(c)
    ensures forall k | k in SimplifyAll(cs) :: ReadOnly(k)
    decreases cs, 0
  {
    if cs != [] {
      SimplifyStaysReadOnly(cs[0]);
      KeptStayReadOnly(cs[1..]);
    }
  }

  // ---------- the meaning ----------

  /** The memory after all actions of a path, whether they hold or not. */
  ghost function Final(p: seq<Predicate>, m: Mem, v: Valuation): Mem {
    if p == [] then m else Final(p[1..], After(p[0].action, m, v), v)
  }

  ghost predicate SomePathExecutes(s: State, m: Mem, v: Valuation) {
    exists p :: p in Paths(s) && Executes(p, m, v)
  }

  /** The guard of an alternative is evaluated in the memory that the alternative ends in. */
  ghost predicate GuardIn(c: State, m: Mem, v: Valuation)
    decreases c, 2
  {
    SomePathExecutes(PathOf(c), MergedMem(c, m, v), v)
  }

  /** The memory after a choice is that of the last alternative whose guard is true. */
  ghost function MergedMem(s: State, m: Mem, v: Valuation): Mem
    decreases s, 1
  {
    match s
    case Basic(data) => Final(data, m, v)
    case Chain(base, curr) => MergedMem(curr, MergedMem(base, m, v), v)
    case Choice(cs) => LastGuarded(cs, m, v)
  }

  ghost function LastGuarded(cs: seq<State>, m: Mem, v: Valuation): Mem
    decreases cs, 0
  {
    if cs == [] then m
    else
      var n := |cs| - 1;
      if GuardIn(cs[n], m, v) then MergedMem(cs[n], m, v) else LastGuarded(cs[..n], m, v)
  }

  /** Everything but INVARIANT predicates holds along some way through the state, in merged
    * memory. */
  ghost predicate Reaches(s: State, m: Mem, v: Valuation) {
    match s
    case Basic(data) => Executes(data, m, v)
    case Chain(base, curr) => Reaches(base, m, v) && Reaches(curr, MergedMem(base, m, v), v)
    case Choice(cs) => exists c :: c in cs && Reaches(c, m, v)
  }

  /** The INVARIANT predicates of all alternatives hold, taken or not, in merged memory. */
  ghost predicate AllInvariants(s: State, m: Mem, v: Valuation) {
    match s
    case Basic(data) => InvariantsHold(data, m, v)
    case Chain(base, curr) => AllInvariants(base, m, v) && AllInvariants(curr, MergedMem(base, m, v), v)
    case Choice(cs) => forall c | c in cs :: AllInvariants(c, m, v)
  }

  // ---------- lists of predicates ----------

  lemma {:induction false} FinalIsRun(p: seq<Predicate>, m: Mem, v: Valuation)
    ensures Executes(p, m, v) ==> Run(p, m, v) == Some(Final(p, m, v))
  {
    if p != [] {
      FinalIsRun(p[1..], After(p[0].action, m, v), v);
    }
  }

  lemma {:induction false} EncodeDataEnds(data: seq<Predicate>, ctx: Context, acc: Formula, v: Valuation)
    ensures MemOf(EncodeData(data, ctx, acc).1, v) == Final(data, MemOf(ctx, v), v)
  {
    if data != [] {
      var r := EncodeAction(data[0].action, ctx);
      var f := Plain(r.0);
      EncodeActionMeans(data[0].action, ctx, v);
      EncodeDataEnds(data[1..], r.1, if data[0].kind == INVARIANT then acc.WithAxiom(f) else acc.Conj(f), v);
    }
  }

  lemma BasicMeans(data: seq<Predicate>, ctx: Context, v: Valuation)
    ensures var f := EncodeData(data, ctx, TRUE).0.Conj(TRUE);
      && (Eval(f.expr, v) <==> Executes(data, MemOf(ctx, v), v))
      && (Eval(f.axiom, v) <==> InvariantsHold(data, MemOf(ctx, v), v))
  {
    EncodeDataMeans(data, ctx, TRUE, v);
    ConjMeans(EncodeData(data, ctx, TRUE).0, TRUE, v);
    assert Eval(BoolConst(true), v);
  }

  lemma ChainMeans(f: Formula, g: Formula, v: Valuation)
    ensures Eval(TRUE.Conj(f).Conj(g).expr, v) <==> Eval(f.expr, v) && Eval(g.expr, v)
    ensures Eval(TRUE.Conj(f).Conj(g).axiom, v) <==> Eval(f.axiom, v) && Eval(g.axiom, v)
  {
    ConjMeans(TRUE, f, v);
    ConjMeans(TRUE.Conj(f), g, v);
    assert Eval(BoolConst(true), v);
  }

  // ---------- path mode ----------

  lemma ReadOnlyChain(base: State, curr: State, m: Mem, v: Valuation)
    requires ReadOnly(base) && ReadOnly(curr)
    ensures SomePathExecutes(Chain(base, curr), m, v) <==> SomePathExecutes(base, m, v) && SomePathExecutes(curr, m, v)
  {
    ReadOnlyPaths(base);
    forall p, q | p in Paths(base) && q in Paths(curr)
      ensures Executes(Join(p, q), m, v) <==> Executes(p, m, v) && Executes(q, m, v)
    {
      RunConcat(p, q, m, v);
      ReadOnlyRun(p, m, v);
      FinalIsRun(p, m, v);
    }
    if SomePathExecutes(base, m, v) && SomePathExecutes(curr, m, v) {
      var p :| p in Paths(base) && Executes(p, m, v);
      var q :| q in Paths(curr) && Executes(q, m, v);
      assert Join(p, q) in Paths(Chain(base, curr));
    }
  }

  lemma ChoiceExecutes(cs: seq<State>, m: Mem, v: Valuation)
    ensures SomePathExecutes(Choice(cs), m, v) <==> exists c :: c in cs && SomePathExecutes(c, m, v)
  {
    if SomePathExecutes(Choice(cs), m, v) {
      var p :| p in AllPaths(cs) && Executes(p, m, v);
      PathOfSomeAlternative(cs, p);
      var i :| 0 <= i < |cs| && p in Paths(cs[i]);
      assert cs[i] in cs && SomePathExecutes(cs[i], m, v);
    }
    forall c | c in cs && SomePathExecutes(c, m, v) ensures SomePathExecutes(Choice(cs), m, v) {
      var p :| p in Paths(c) && Executes(p, m, v);
      var i :| 0 <= i < |cs| && cs[i] == c;
      PathOfSomeAlternative(cs, p);
    }
  }

  /** In path mode, a state that does not write becomes a formula that says that some path of
    * it executes in the memory of the context, and that memory stays. */
  lemma {:induction false} PathModeMeansIn(s: State, ctx: Context, v: Valuation)
    requires ReadOnly(s)
    ensures MemOf(Encode(s, ctx, true).1, v) == MemOf(ctx, v)
    ensures Eval(Encode(s, ctx, true).0.expr, v) <==> SomePathExecutes(s, MemOf(ctx, v), v)
    decreases s, 1
  {
    match s
    case Basic(data) =>
      BasicMeans(data, ctx, v);
      EncodeDataEnds(data, ctx, TRUE, v);
      ReadOnlyRun(data, MemOf(ctx, v), v);
    case Chain(base, curr) =>
      var b := Encode(base, ctx, true);
      PathModeMeansIn(base, ctx, v);
      PathModeMeansIn(curr, b.1, v);
      ReadOnlyChain(base, curr, MemOf(ctx, v), v);
      ChainMeans(b.0, Encode(curr, b.1, true).0, v);
    case Choice(cs) =>
      PathModeChoicesIn(cs, ctx, FALSE, v);
      ChoiceExecutes(cs, MemOf(ctx, v), v);
  }

  lemma {:induction false} PathModeChoicesIn(cs: seq<State>, ctx: Context, res: Formula, v: Valuation)
    requires forall c | c in cs :: ReadOnly(c)
    ensures Eval(EncodeChoices(cs, ctx, true, res, []).0.expr, v)
      <==> Eval(res.expr, v) || exists c :: c in cs && SomePathExecutes(c, MemOf(ctx, v), v)
    decreases cs, 0
  {
    if cs != [] {
      PathModeMeansIn(cs[0], ctx, v);
      var f := Encode(cs[0], ctx, true).0;
      DisjMeans(res, f, v);
      PathModeChoicesIn(cs[1..], ctx, res.Disj(f), v);
      assert cs == [cs[0]] + cs[1..];
    }
  }

  // ---------- guards ----------

  /** Where nothing is written, reaching is executing, and memory stays. */
  lemma {:induction false} ReadOnlyReaches(s: State, m: Mem, v: Valuation)
    requires ReadOnly(s)
    ensures MergedMem(s, m, v) == m
    ensures Reaches(s, m, v) <==> SomePathExecutes(s, m, v)
    decreases s, 1
  {
    match s
    case Basic(data) => ReadOnlyRun(data, m, v);
    case Chain(base, curr) =>
      ReadOnlyReaches(base, m, v);
      ReadOnlyReaches(curr, m, v);
      ReadOnlyChain(base, curr, m, v);
    case Choice(cs) =>
      ChoiceExecutes(cs, m, v);
      forall c | c in cs ensures Reaches(c, m, v) <==> SomePathExecutes(c, m, v) {
        ReadOnlyReaches(c, m, v);
      }
      ReadOnlyLastGuarded(cs, m, v);
  }

  lemma {:induction false} ReadOnlyLastGuarded(cs: seq<State>, m: Mem, v: Valuation)
    requires forall c | c in cs :: ReadOnly(c)
    ensures LastGuarded(cs, m, v) == m
    decreases cs, 0
  {
    if cs != [] {
      var n := |cs| - 1;
      ReadOnlyReaches(cs[n], m, v);
      ReadOnlyLastGuarded(cs[..n], m, v);
    }
  }

  /** What the encoder has computed for a state is what `MergedMem`, `Reaches` and
    * `AllInvariants` say. */
  ghost predicate MeansMerged(s: State, ctx: Context, v: Valuation) {
    var r, m := Encode(s, ctx, false), MemOf(ctx, v);
    && MemOf(r.1, v) == MergedMem(s, m, v)
    && (Eval(r.0.expr, v) <==> Reaches(s, m, v))
    && (Eval(r.0.axiom, v) <==> AllInvariants(s, m, v))
  }

  /** The guard and the memory collected for an alternative. */
  lemma GuardMeansIn(c: State, ctx: Context, v: Valuation)
    requires ReadOnly(FilterByTypes(c, {PATH})) && MeansMerged(c, ctx, v)
    ensures Eval(AlternativeOf(c, ctx).guard, v) <==> GuardIn(c, MemOf(ctx, v), v)
    ensures MemOf(AlternativeOf(c, ctx).ctx, v) == MergedMem(c, MemOf(ctx, v), v)
  {
    var path := PathOf(c);
    SimplifyStaysReadOnly(FilterByTypes(c, {PATH}));
    if path == c {
      ReadOnlyReaches(c, MemOf(ctx, v), v);
    } else {
      PathModeMeansIn(path, Encode(c, ctx, false).1, v);
    }
  }

  lemma {:induction false} LastGuardedPicks(cs: seq<State>, m: Mem, v: Valuation, k: nat)
    requires k < |cs| && GuardIn(cs[k], m, v)
    requires forall j | k < j < |cs| :: !GuardIn(cs[j], m, v)
    ensures LastGuarded(cs, m, v) == MergedMem(cs[k], m, v)
    decreases |cs|
  {
    var n := |cs| - 1;
    if k < n {
      LastGuardedPicks(cs[..n], m, v, k);
    }
  }

  lemma {:induction false} LastGuardedKeeps(cs: seq<State>, m: Mem, v: Valuation)
    requires forall j | 0 <= j < |cs| :: !GuardIn(cs[j], m, v)
    ensures LastGuarded(cs, m, v) == m
    decreases |cs|
  {
    if cs != [] {
      LastGuardedKeeps(cs[..|cs| - 1], m, v);
    }
  }

  // ---------- main result ----------

  /** Merging computes, for every state whose guards do not write, from every memory: the
    * merged memory, a formula that says that the state is reached through, and an axiom that
    * says that the INVARIANT predicates of all alternatives hold. */
  lemma {:induction false} MergeMeans(s: State, ctx: Context, v: Valuation)
    requires ctx.Valid() && ReadOnlyGuards(s)
    ensures MeansMerged(s, ctx, v)
    decreases s
  {
    match s
    case Basic(data) =>
      BasicMeans(data, ctx, v);
      EncodeDataEnds(data, ctx, TRUE, v);
    case Chain(base, curr) =>
      var b := Encode(base, ctx, false);
      EncodeGrows(base, ctx, false, v);
      MergeMeans(base, ctx, v);
      MergeMeans(curr, b.1, v);
      ChainMeans(b.0, Encode(curr, b.1, false).0, v);
    case Choice(cs) =>
      forall c | c in cs ensures MeansMerged(c, ctx, v) {
        MergeMeans(c, ctx, v);
      }
      ChoiceMeans(cs, ctx, v);
  }

  lemma ChoiceMeans(cs: seq<State>, ctx: Context, v: Valuation)
    requires ctx.Valid() && ReadOnlyGuards(Choice(cs))
    requires forall c | c in cs :: MeansMerged(c, ctx, v)
    ensures MeansMerged(Choice(cs), ctx, v)
  {
    ChoicesMean(cs, ctx, FALSE, [], v);
    ChoiceMemory(cs, ctx, v);
    var m := MemOf(ctx, v);
    forall c | c in cs ensures exists i :: 0 <= i < |cs| && cs[i] == c {
    }
    forall i | 0 <= i < |cs| ensures MeansMerged(cs[i], ctx, v) {
      assert cs[i] in cs;
    }
  }

  lemma ChoiceMemory(cs: seq<State>, ctx: Context, v: Valuation)
    requires ctx.Valid() && ReadOnlyGuards(Choice(cs))
    requires forall c | c in cs :: MeansMerged(c, ctx, v)
    ensures MemOf(Encode(Choice(cs), ctx, false).1, v) == LastGuarded(cs, MemOf(ctx, v), v)
  {
    var m := MemOf(ctx, v);
    var alts := AlternativesOf(cs, ctx);
    forall i | 0 <= i < |cs|
      ensures Eval(alts[i].guard, v) <==> GuardIn(cs[i], m, v)
    {
      AlternativeMeans(cs, i, ctx, v);
    }
    if j :| 0 <= j < |cs| && GuardIn(cs[j], m, v) {
      var k := LastOne(cs, m, v, j);
      AlternativeMeans(cs, k, ctx, v);
      LastTrueGuardDecides(cs, ctx, k, v);
      LastGuardedPicks(cs, m, v, k);
    } else {
      NoTrueGuardKeepsMemory(cs, ctx, v);
      LastGuardedKeeps(cs, m, v);
    }
  }

  lemma AlternativeMeans(cs: seq<State>, i: nat, ctx: Context, v: Valuation)
    requires i < |cs| && ReadOnlyGuards(Choice(cs))
    requires forall c | c in cs :: MeansMerged(c, ctx, v)
    ensures Eval(AlternativesOf(cs, ctx)[i].guard, v) <==> GuardIn(cs[i], MemOf(ctx, v), v)
    ensures MemOf(AlternativesOf(cs, ctx)[i].ctx, v) == MergedMem(cs[i], MemOf(ctx, v), v)
  {
    assert cs[i] in cs;
    GuardMeansIn(cs[i], ctx, v);
  }

  lemma {:induction false} LastOne(cs: seq<State>, m: Mem, v: Valuation, j: nat) returns (k: nat)
    requires j < |cs| && GuardIn(cs[j], m, v)
    ensures k < |cs| && GuardIn(cs[k], m, v) && forall i | k < i < |cs| :: !GuardIn(cs[i], m, v)
    decreases |cs| - j
  {
    if i: nat :| j < i < |cs| && GuardIn(cs[i], m, v) {
      k := LastOne(cs, m, v, i);
    } else {
      k := j;
    }
  }
}
