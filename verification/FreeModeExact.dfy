/** Exactness of the free-variable encoder, and its agreement with the merging encoder. */
module FreeModeExact {
  import opened SmtLogic
  import opened PredicateStates
  import opened StateAlgebra
  import opened Encoding
  import opened Meaning
  import opened MergeMode
  import opened MergedMeaning
  import opened MergeModeExact
  import opened FreeMode
  import opened FreeMeaning

  /** The alternatives of each choice ask for the same arrays, as far as these are not
    * already in the context. */
  ghost predicate Uniform(s: State, keys: set<ArrayId>) {
    match s
    case Basic(_) => true
    case Chain(base, curr) => Uniform(base, keys) && Uniform(curr, keys + Ids(base))
    case Choice(cs) => forall c | c in cs :: Uniform(c, keys) && AllIds(cs) <= keys + Ids(c)
  }

  // ---------- arrays nobody asks for ----------

  lemma {:induction false} FinalKeepsUnknown(p: seq<Predicate>, m: Mem, v: Valuation)
    ensures SameOutside(DataIds(p), m, Final(p, m, v))
  {
    if p != [] {
      FinalKeepsUnknown(p[1..], After(p[0].action, m, v), v);
    }
  }

  lemma {:induction false} SolutionKeepsUnknown(s: State, m: Mem, keys: set<ArrayId>, v: Valuation, run: bool,
                                                inv: bool, end: Mem)
    requires Solves(s, m, keys, v, run, inv, end)
    ensures SameOutside(keys + Ids(s), m, end)
    decreases s
  {
    match s
    case Basic(data) => FinalKeepsUnknown(data, m, v);
    case Chain(base, curr) =>
      var mid: Mem :| Solves(base, m, keys, v, run, inv, mid)
        && Solves(curr, mid, keys + Ids(base), v, run, inv, end);
      SolutionKeepsUnknown(base, m, keys, v, run, inv, mid);
      SolutionKeepsUnknown(curr, mid, keys + Ids(base), v, run, inv, end);
    case Choice(cs) =>
  }

  lemma {:induction false} MergedKeepsUnknown(s: State, m: Mem, v: Valuation)
    ensures SameOutside(Ids(s), m, MergedMem(s, m, v))
    decreases s, 1
  {
    match s
    case Basic(data) => FinalKeepsUnknown(data, m, v);
    case Chain(base, curr) =>
      MergedKeepsUnknown(base, m, v);
      MergedKeepsUnknown(curr, MergedMem(base, m, v), v);
    case Choice(cs) => LastGuardedKeepsUnknown(cs, AllIds(cs), m, v);
  }

  lemma {:induction false} LastGuardedKeepsUnknown(cs: seq<State>, ids: set<ArrayId>, m: Mem, v: Valuation)
    requires AllIds(cs) <= ids
    ensures SameOutside(ids, m, LastGuarded(cs, m, v))
    decreases cs, 0
  {
    if cs != [] {
      var n := |cs| - 1;
      IdsOfAlternative(cs, n);
      forall id | id in AllIds(cs[..n]) ensures id in ids {
        IdsOfPrefix(cs, n);
      }
      MergedKeepsUnknown(cs[n], m, v);
      LastGuardedKeepsUnknown(cs[..n], ids, m, v);
    }
  }

  lemma {:induction false} IdsOfPrefix(cs: seq<State>, n: nat)
    requires n <= |cs|
    ensures AllIds(cs[..n]) <= AllIds(cs)
  {
    if n > 0 {
      assert cs[..n][1..] == cs[1..][..n - 1];
      IdsOfPrefix(cs[1..], n - 1);
    }
  }

  // ---------- solutions and paths ----------

  /** Wherever the path comes to a choice, the INVARIANT predicates of every alternative can
    * hold from there. */
  ghost predicate Passes(s: State, m: Mem, keys: set<ArrayId>, v: Valuation, p: seq<Predicate>) {
    match s
    case Basic(_) => true
    case Chain(base, curr) =>
      exists x, y ::
        && x in Paths(base) && y in Paths(curr) && p == Join(x, y) && Executes(x, m, v)
        && Passes(base, m, keys, v, x) && Passes(curr, Run(x, m, v).value, keys + Ids(base), v, y)
    case Choice(cs) =>
      && (forall c | c in cs :: CanMeet(c, m, keys, v))
      && exists c :: c in cs && p in Paths(c) && Passes(c, m, keys, v, p)
  }

  /** The path executes and ends in this memory; with `inv`, its INVARIANT predicates hold,
    * and those of the alternatives that it leaves aside can. */
  ghost predicate Takes(s: State, m: Mem, keys: set<ArrayId>, v: Valuation, inv: bool, p: seq<Predicate>, end: Mem) {
    && p in Paths(s) && Run(p, m, v) == Some(end)
    && (inv ==> InvariantsHold(p, m, v) && Passes(s, m, keys, v, p))
  }

  lemma {:induction false} SolutionIsPath(s: State, m: Mem, keys: set<ArrayId>, v: Valuation, inv: bool, end: Mem)
    returns (p: seq<Predicate>)
    requires Uniform(s, keys) && Solves(s, m, keys, v, true, inv, end)
    ensures Takes(s, m, keys, v, inv, p, end)
    decreases s
  {
    match s
    case Basic(data) =>
      FinalIsRun(data, m, v);
      p := data;
    case Chain(base, curr) =>
      var mid: Mem :| Solves(base, m, keys, v, true, inv, mid)
        && Solves(curr, mid, keys + Ids(base), v, true, inv, end);
      var x := SolutionIsPath(base, m, keys, v, inv, mid);
      var y := SolutionIsPath(curr, mid, keys + Ids(base), v, inv, end);
      RunConcat(x, y, m, v);
      p := Join(x, y);
    case Choice(cs) =>
      var c, chosen: Mem :| c in cs && Solves(c, m, keys, v, true, inv, chosen) && SameOn(keys + Ids(c), chosen, end);
      SolutionKeepsUnknown(c, m, keys, v, true, inv, chosen);
      ChosenIsEnd(keys + Ids(c), keys + AllIds(cs), m, chosen, end);
      p := SolutionIsPath(c, m, keys, v, inv, chosen);
      PathOfSomeAlternative(cs, p);
  }

  lemma ChosenIsEnd(known: set<ArrayId>, all: set<ArrayId>, m: Mem, chosen: Mem, end: Mem)
    requires all <= known && SameOn(known, chosen, end) && SameOutside(known, m, chosen) && SameOutside(all, m, end)
    ensures chosen == end
  {
    forall id ensures chosen[id] == end[id] {
      assert id !in known ==> m[id] == chosen[id] && m[id] == end[id];
    }
  }

  lemma {:induction false} PathIsSolution(s: State, m: Mem, keys: set<ArrayId>, v: Valuation, inv: bool,
                                          p: seq<Predicate>, end: Mem)
    requires Takes(s, m, keys, v, inv, p, end)
    ensures Solves(s, m, keys, v, true, inv, end)
    decreases s
  {
    match s
    case Basic(data) => FinalIsRun(data, m, v);
    case Chain(base, curr) =>
      var x, y :| x in Paths(base) && y in Paths(curr) && p == Join(x, y)
        && (inv ==> Executes(x, m, v) && Passes(base, m, keys, v, x)
                    && Passes(curr, Run(x, m, v).value, keys + Ids(base), v, y));
      RunConcat(x, y, m, v);
      var mid := Run(x, m, v).value;
      PathIsSolution(base, m, keys, v, inv, x, mid);
      PathIsSolution(curr, mid, keys + Ids(base), v, inv, y, end);
    case Choice(cs) =>
      PathOfSomeAlternative(cs, p);
      var c :| c in cs && p in Paths(c) && (inv ==> Passes(c, m, keys, v, p));
      PathIsSolution(c, m, keys, v, inv, p, end);
      SolutionKeepsUnknown(c, m, keys, v, true, inv, end);
      var k :| 0 <= k < |cs| && cs[k] == c;
      IdsOfAlternative(cs, k);
  }

  /** A solution in which the state runs also is one in which it need not. */
  lemma {:induction false} RunningMeets(s: State, m: Mem, keys: set<ArrayId>, v: Valuation, end: Mem)
    requires Solves(s, m, keys, v, true, true, end)
    ensures Solves(s, m, keys, v, false, true, end)
    decreases s
  {
    match s
    case Basic(_) =>
    case Chain(base, curr) =>
      var mid: Mem :| Solves(base, m, keys, v, true, true, mid)
        && Solves(curr, mid, keys + Ids(base), v, true, true, end);
      RunningMeets(base, m, keys, v, mid);
      RunningMeets(curr, mid, keys + Ids(base), v, end);
    case Choice(_) =>
  }

  // ---------- main results ----------

  /** If the formula is true then some path executes, and the context denotes the memory in
    * which it ends.  If the axiom is true as well, the INVARIANT predicates of that path
    * hold. */
  lemma FreeIsSound(s: State, ctx: Context, tick: nat, v: Valuation) returns (p: seq<Predicate>)
    requires ctx.Valid() && Uniform(s, Keys(ctx))
    requires Eval(EncodeFree(s, ctx, tick).0.expr, v)
    ensures p in Paths(s) && Run(p, MemOf(ctx, v), v) == Some(MemOf(EncodeFree(s, ctx, tick).1, v))
    ensures Eval(EncodeFree(s, ctx, tick).0.axiom, v) ==> InvariantsHold(p, MemOf(ctx, v), v)
  {
    var r := EncodeFree(s, ctx, tick);
    var inv := if Eval(r.0.axiom, v) then true else false;
    FreeSolves(s, ctx, tick, v, true, inv);
    p := SolutionIsPath(s, MemOf(ctx, v), Keys(ctx), v, inv, MemOf(r.1, v));
  }

  /** If a path executes then the external arrays can be chosen so that the formula is true
    * and the context denotes the memory in which the path ends.  If its INVARIANT predicates
    * hold, and those of the alternatives that it leaves aside can, then so that the axiom is
    * true as well. */
  lemma FreeIsComplete(s: State, ctx: Context, tick: nat, v: Valuation, used: iset<nat>, inv: bool,
                       p: seq<Predicate>, end: Mem) returns (w: Valuation)
    requires Early(ctx, used, tick) && Takes(s, MemOf(ctx, v), Keys(ctx), v, inv, p, end)
    ensures Witnesses(s, ctx, tick, v, w, true, inv, end)
  {
    PathIsSolution(s, MemOf(ctx, v), Keys(ctx), v, inv, p, end);
    w := SolutionIsWitnessed(s, ctx, tick, v, used, true, inv, end);
  }

  /** The formula is true, and with `inv` the axiom too, for some choice of the external
    * arrays that the state introduces. */
  ghost predicate Solvable(s: State, ctx: Context, tick: nat, v: Valuation, inv: bool) {
    var r := EncodeFree(s, ctx, tick);
    exists w :: Agree(v, w, Outside(tick, r.2)) && Satisfied(r.0, true, inv, w)
  }

  /** The free-variable formula has a solution that changes nothing but the external arrays
    * it introduced exactly when some path of the state executes; together with its axiom,
    * exactly when some path executes whose INVARIANT predicates hold and which leaves no
    * alternative aside whose INVARIANT predicates cannot hold. */
  lemma FreeSatisfiableIffSomePathExecutes(s: State, ctx: Context, tick: nat, v: Valuation, used: iset<nat>)
    requires Early(ctx, used, tick) && Uniform(s, Keys(ctx))
    ensures var m := MemOf(ctx, v);
      && (Solvable(s, ctx, tick, v, false) <==> SomePathExecutes(s, m, v))
      && (Solvable(s, ctx, tick, v, true) <==>
            exists p :: p in Paths(s) && Executes(p, m, v) && InvariantsHold(p, m, v) && Passes(s, m, Keys(ctx), v, p))
  {
    var m := MemOf(ctx, v);
    forall inv | Solvable(s, ctx, tick, v, inv)
      ensures exists p :: p in Paths(s) && Executes(p, m, v)
                && (inv ==> InvariantsHold(p, m, v) && Passes(s, m, Keys(ctx), v, p))
    {
      var end := SolvableEnds(s, ctx, tick, v, used, inv);
      var p := SolutionIsPath(s, m, Keys(ctx), v, inv, end);
    }
    forall inv, p | p in Paths(s) && Executes(p, m, v)
                    && (inv ==> InvariantsHold(p, m, v) && Passes(s, m, Keys(ctx), v, p))
      ensures Solvable(s, ctx, tick, v, inv)
    {
      var w := FreeIsComplete(s, ctx, tick, v, used, inv, p, Run(p, m, v).value);
    }
  }

  lemma SolvableEnds(s: State, ctx: Context, tick: nat, v: Valuation, used: iset<nat>, inv: bool) returns (end: Mem)
    requires Early(ctx, used, tick) && Solvable(s, ctx, tick, v, inv)
    ensures Solves(s, MemOf(ctx, v), Keys(ctx), v, true, inv, end)
  {
    var r := EncodeFree(s, ctx, tick);
    var w :| Agree(v, w, Outside(tick, r.2)) && Satisfied(r.0, true, inv, w);
    end := MemOf(r.1, w);
    assert Witnesses(s, ctx, tick, v, w, true, inv, end);
    FreeMeans(s, ctx, tick, v, used, true, inv, end);
  }

  // ---------- agreement of the two encoders ----------

  /** What merging asserts is a solution of what free variables ask for. */
  lemma {:induction false} MergedSolves(s: State, ctx: Context, keys: set<ArrayId>, v: Valuation, run: bool)
    requires ctx.Valid() && Mergeable(s, v)
    requires AllInvariants(s, MemOf(ctx, v), v) && (run ==> SomePathExecutes(s, MemOf(ctx, v), v))
    ensures Solves(s, MemOf(ctx, v), keys, v, run, true, MergedMem(s, MemOf(ctx, v), v))
    decreases s
  {
    var m := MemOf(ctx, v);
    match s
    case Basic(_) =>
    case Chain(base, curr) =>
      var b := Encode(base, ctx, false);
      EncodeGrows(base, ctx, false, v);
      MergedInTurn(base, curr, ctx, v);
      MergedSolves(base, ctx, keys, v, run);
      MergedSolves(curr, b.1, keys + Ids(base), v, run);
    case Choice(cs) =>
      MergedKeepsUnknown(s, m, v);
      forall c | c in cs ensures CanMeet(c, m, keys, v) {
        MergedSolves(c, ctx, keys, v, false);
      }
      if run {
        var k := ExecutedIsMerged(cs, ctx, v);
        assert cs[k] in cs;
        MergedSolves(cs[k], ctx, keys, v, true);
        ChosenSolves(cs, k, m, keys, v, MergedMem(s, m, v));
      }
  }

  lemma ChosenSolves(cs: seq<State>, k: nat, m: Mem, keys: set<ArrayId>, v: Valuation, end: Mem)
    requires k < |cs| && Solves(cs[k], m, keys, v, true, true, end)
    requires SameOutside(keys + AllIds(cs), m, end) && forall c | c in cs :: CanMeet(c, m, keys, v)
    ensures Solves(Choice(cs), m, keys, v, true, true, end)
  {
    assert cs[k] in cs && SameOn(keys + Ids(cs[k]), end, end);
  }

  lemma MergedInTurn(base: State, curr: State, ctx: Context, v: Valuation)
    requires ctx.Valid() && Mergeable(base, v)
    ensures var m, mid := MemOf(ctx, v), MemOf(Encode(base, ctx, false).1, v);
      && mid == MergedMem(base, m, v)
      && (SomePathExecutes(Chain(base, curr), m, v) ==> SomePathExecutes(base, m, v) && SomePathExecutes(curr, mid, v))
  {
    var m := MemOf(ctx, v);
    MergeIsExact(base, ctx, v);
    MergeableGuardsAreReadOnly(base, v);
    MergeMeans(base, ctx, v);
    if SomePathExecutes(Chain(base, curr), m, v) {
      var p :| p in Paths(Chain(base, curr)) && Executes(p, m, v);
      var x, y :| x in Paths(base) && y in Paths(curr) && p == Join(x, y);
      RunConcat(x, y, m, v);
    }
  }

  /** The merged memory is that of an alternative that executes. */
  lemma ExecutedIsMerged(cs: seq<State>, ctx: Context, v: Valuation) returns (k: nat)
    requires ctx.Valid() && Mergeable(Choice(cs), v) && SomePathExecutes(Choice(cs), MemOf(ctx, v), v)
    ensures k < |cs| && SomePathExecutes(cs[k], MemOf(ctx, v), v)
    ensures MergedMem(cs[k], MemOf(ctx, v), v) == MergedMem(Choice(cs), MemOf(ctx, v), v)
  {
    var m := MemOf(ctx, v);
    var p :| p in AllPaths(cs) && Executes(p, m, v);
    PathOfSomeAlternative(cs, p);
    k :| 0 <= k < |cs| && p in Paths(cs[k]);
    assert cs[k] in cs;
    MergeIsExact(Choice(cs), ctx, v);
    MergeIsExact(cs[k], ctx, v);
    MergeableGuardsAreReadOnly(Choice(cs), v);
    MergeMeans(Choice(cs), ctx, v);
    MergeMeans(cs[k], ctx, v);
  }

  /** Where merging is exact and the alternatives are uniform, the formulas of the two
    * encoders are equisatisfiable; with the axioms, merging asks for the INVARIANT predicates
    * of all alternatives in merged memory besides. */
  lemma ModesAreEquisatisfiable(s: State, ctx: Context, tick: nat, v: Valuation, used: iset<nat>)
    requires Early(ctx, used, tick) && Uniform(s, Keys(ctx)) && Mergeable(s, v)
    ensures var f := Encode(s, ctx, false).0;
      && (Eval(f.expr, v) <==> Solvable(s, ctx, tick, v, false))
      && ((Eval(f.expr, v) && Eval(f.axiom, v)) <==>
            (Solvable(s, ctx, tick, v, true) && AllInvariants(s, MemOf(ctx, v), v)))
  {
    var f, m := Encode(s, ctx, false).0, MemOf(ctx, v);
    MergeIsExact(s, ctx, v);
    FreeSatisfiableIffSomePathExecutes(s, ctx, tick, v, used);
    if Eval(f.expr, v) && Eval(f.axiom, v) {
      MergedSolves(s, ctx, Keys(ctx), v, true);
      var w := SolutionIsWitnessed(s, ctx, tick, v, used, true, true, MergedMem(s, m, v));
    }
  }
}
