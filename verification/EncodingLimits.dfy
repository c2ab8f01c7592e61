/** Where the encoders stop being exact: each condition of the exactness theorems is needed. */
module EncodingLimits {
  import opened SmtLogic
  import opened PredicateStates
  import opened Encoding
  import opened Meaning
  import opened Guards
  import opened StateAlgebra
  import opened MergeMode
  import opened MergedMeaning
  import opened MergeModeExact
  import opened FreeMeaning
  import opened FreeModeExact

  const START := Context([], map[])
  const SPACE := ArrayId.Memory(0)

  function PathTest(a: Action): Predicate {
    Predicate(PATH, a)
  }

  function Assignment(address: int, n: int): Predicate {
    Predicate(STATE, Write(SPACE, Const(address), Const(n)))
  }

  /** A path condition that reads memory is evaluated again after the alternative has
    * written there, so the alternative's memory is lost. */
  lemma MemoryReadingGuardLosesWrite(v: Valuation)
    ensures var test := PathTest(Equality(Load(SPACE, Const(0)), Const(0xff)));
      var data := [test, Assignment(0, 1)];
      var m := MemOf(START, v);
      && Run(data, m, v) == Some(Wrote(m, 1))
      && MemOf(Encode(Choice([Basic(data)]), START, false).1, v) == m
      && m != Wrote(m, 1)
  {
    var test := PathTest(Equality(Load(SPACE, Const(0)), Const(0xff)));
    var data := [test, Assignment(0, 1)];
    var c := Basic(data);
    var m := MemOf(START, v);
    assert m[SPACE][0] == 0xff && Wrote(m, 1)[SPACE][0] == 1;
    TestThenWrite(test, m, v);
    EndsWritten(data, Wrote(m, 1), v);
    assert PathOf(c) == Basic([test]);
    GuardIsFalse(c, test, m, v);
    NoTrueGuardKeepsMemory([c], START, v);
  }

  lemma EndsWritten(data: seq<Predicate>, end: Mem, v: Valuation)
    requires Run(data, MemOf(START, v), v) == Some(end)
    ensures MemOf(Encode(Basic(data), START, false).1, v) == end
  {
    BasicExact(data, START, v);
    assert data in {data};
  }

  lemma GuardIsFalse(c: State, test: Predicate, m: Mem, v: Valuation)
    requires test == PathTest(Equality(Load(SPACE, Const(0)), Const(0xff))) && PathOf(c) == Basic([test])
    requires MemOf(Encode(c, START, false).1, v) == Wrote(m, 1)
    requires c.Basic? && |c.data| == 2
    ensures !Eval(AlternativeOf(c, START).guard, v)
  {
    BasicExact([test], Encode(c, START, false).1, v);
    TestOfCellZero(Wrote(m, 1), v);
  }

  lemma TestThenWrite(test: Predicate, m: Mem, v: Valuation)
    requires test == PathTest(Equality(Load(SPACE, Const(0)), Const(0xff))) && m[SPACE][0] == 0xff
    ensures var data := [test, Assignment(0, 1)];
      Run(data, m, v) == Some(Wrote(m, 1)) && KeepKinds(data, {PATH}) == [test]
  {
    var data := [test, Assignment(0, 1)];
    assert data[1..] == [Assignment(0, 1)];
    TestOfCellZero(m, v);
    OneWrite(1, m, v);
    assert Run(data, m, v) == Run(data[1..], m, v);
    var rest := data[1..];
    assert rest[1..] == [] && KeepKinds(rest, {PATH}) == [];
    assert KeepKinds(data, {PATH}) == [test] + KeepKinds(rest, {PATH});
  }

  lemma TestOfCellZero(m: Mem, v: Valuation)
    ensures var test := PathTest(Equality(Load(SPACE, Const(0)), Const(0xff)));
      && (Holds(test.action, m, v) <==> Wrap(m[SPACE][0]) == 0xff)
      && (Executes([test], m, v) <==> Wrap(m[SPACE][0]) == 0xff)
  {
    var test := PathTest(Equality(Load(SPACE, Const(0)), Const(0xff)));
    assert IntValue(Const(0), m, v) == 0 && IntValue(Const(0xff), m, v) == 0xff;
    assert IntValue(Load(SPACE, Const(0)), m, v) == m[SPACE][0];
    SingletonExecutes([test], m, v);
  }

  ghost function Wrote(m: Mem, n: int): Mem {
    m[SPACE := m[SPACE][0 := n]]
  }

  /** Two alternatives whose path conditions hold together: the merged memory is that of the
    * later one, although a path through the earlier one executes too. */
  lemma OverlappingGuardsForgetEarlierPath(v: Valuation)
    ensures var first, second := [Assignment(0, 1)], [Assignment(0, 2)];
      var m := MemOf(START, v);
      && Run(first, m, v) == Some(Wrote(m, 1))
      && MemOf(Encode(Choice([Basic(first), Basic(second)]), START, false).1, v) == Wrote(m, 2)
      && Wrote(m, 1) != Wrote(m, 2)
  {
    var first, second := [Assignment(0, 1)], [Assignment(0, 2)];
    var a, b := Basic(first), Basic(second);
    var m := MemOf(START, v);
    OneWrite(1, m, v);
    OneWrite(2, m, v);
    assert Wrote(m, 1)[SPACE][0] != Wrote(m, 2)[SPACE][0];
    UnguardedAlternative(second, v);
    LastTrueGuardDecides([a, b], START, 1, v);
  }

  lemma UnguardedAlternative(p: seq<Predicate>, v: Valuation)
    requires |p| == 1 && p[0].kind != PATH && Executes(p, MemOf(START, v), v)
    ensures Eval(AlternativeOf(Basic(p), START).guard, v)
    ensures Run(p, MemOf(START, v), v) == Some(MemOf(AlternativeOf(Basic(p), START).ctx, v))
  {
    BasicExact(p, START, v);
    assert p in Paths(Basic(p));
    assert p[1..] == [] && KeepKinds(p, {PATH}) == [];
    var f := Encode(Basic(p), START, false);
    BasicExact([], f.1, v);
    assert Executes([], MemOf(f.1, v), v) && [] in Paths(Basic([]));
  }

  lemma OneWrite(n: int, m: Mem, v: Valuation)
    requires 0 <= n < WORD
    ensures Run([Assignment(0, n)], m, v) == Some(Wrote(m, n))
  {
    var p := [Assignment(0, n)];
    assert p[1..] == [];
    var m1 := After(p[0].action, m, v);
    assert Run(p[1..], m1, v) == Some(m1);
  }

  /** An alternative that itself branches, with a branch that has no path condition: the
    * simplifier drops that branch from the guard, so the guard is false on it. */
  lemma EmptyBranchMakesGuardFalse(x: BoolTerm, v: Valuation)
    requires PureBool(x) && !BoolValue(x, BLANK, v)
    ensures var test := PathTest(BoolEquality(x, BoolLit(true)));
      var c := Choice([Basic([test]), Basic([])]);
      GuardHolds(c, v) && !CanHold(PathOf(c), v)
  {
    var test := PathTest(BoolEquality(x, BoolLit(true)));
    var yes, no := Basic([test]), Basic([]);
    var c := Choice([yes, no]);
    FilterChoiceOfTwo(yes, no);
    assert KeepKinds([test], {PATH}) == [test];
    CanHoldChoice([yes, no], v);
    assert Executes([], BLANK, v) && [] in Paths(no) && CanHold(no, v);
    assert [yes, no][1..] == [no] && [no][1..] == [];
    assert SimplifyAll([no]) == [];
    assert SimplifyAll([yes, no]) == [yes];
    assert PathOf(c) == yes;
    SingletonExecutes([test], BLANK, v);
    assert Paths(yes) == {[test]};
  }

  lemma FilterChoiceOfTwo(a: State, b: State)
    ensures FilterByTypes(Choice([a, b]), {PATH}) == Choice([FilterByTypes(a, {PATH}), FilterByTypes(b, {PATH})])
  {
    assert [a, b][1..] == [b] && [b][1..] == [];
    assert FilterAll([b], {PATH}) == [FilterByTypes(b, {PATH})];
  }

  /** An alternative that is nothing but a complementary branch: its guard is always true,
    * but the simplifier turns it into a choice of nothing, which is encoded as false. */
  lemma ComplementaryBranchMakesGuardFalse(x: BoolTerm, v: Valuation)
    requires PureBool(x)
    ensures var c := Choice([Basic([PathTest(BoolEquality(x, BoolLit(true)))]),
                             Basic([PathTest(BoolEquality(x, BoolLit(false)))])]);
      GuardHolds(c, v) && !CanHold(PathOf(c), v)
  {
    var p, q := PathTest(BoolEquality(x, BoolLit(true))), PathTest(BoolEquality(x, BoolLit(false)));
    var yes, no := Basic([p]), Basic([q]);
    var c := Choice([yes, no]);
    FilterChoiceOfTwo(yes, no);
    assert KeepKinds([p], {PATH}) == [p] && KeepKinds([q], {PATH}) == [q];
    assert [yes, no][1..] == [no] && [no][1..] == [];
    assert SimplifyAll([no]) == [no];
    assert SimplifyAll([yes, no]) == [yes, no];
    ComplementaryCovers([yes, no], v);
    CanHoldChoice([yes, no], v);
    assert [p] in Paths(yes) && [q] in Paths(no);
    assert CanHold(if Executes([p], BLANK, v) then yes else no, v);
    assert PathOf(c) == Choice([]);
    CanHoldChoice([], v);
  }

  // ---------- axioms ----------

  /** An INVARIANT predicate of an alternative that is not taken is asserted all the same: a
    * path executes, and has no INVARIANT predicate to meet, yet the axiom is false. */
  lemma UntakenInvariantIsAsserted(x: string, v: Valuation)
    requires v.bools(x)
    ensures var yes := [PathTest(BoolEquality(Flag(x), BoolLit(true)))];
      var no := [PathTest(BoolEquality(Flag(x), BoolLit(false))), Impossible()];
      var s, f := Choice([Basic(yes), Basic(no)]), Encode(Choice([Basic(yes), Basic(no)]), START, false).0;
      && Mergeable(s, v)
      && yes in Paths(s) && Executes(yes, MemOf(START, v), v) && InvariantsHold(yes, MemOf(START, v), v)
      && Eval(f.expr, v) && !Eval(f.axiom, v)
  {
    var test, other := PathTest(BoolEquality(Flag(x), BoolLit(true))), PathTest(BoolEquality(Flag(x), BoolLit(false)));
    var yes, no := [test], [other, Impossible()];
    var cs, m := [Basic(yes), Basic(no)], MemOf(START, v);
    UntakenIsMergeable(test, other, v);
    SingletonExecutes(yes, m, v);
    assert yes[1..] == [] && InvariantsHold(yes[1..], m, v);
    assert no[1..] == [Impossible()];
    assert !InvariantsHold([Impossible()], m, v) && !InvariantsHold(no, m, v);
    assert cs[1] in cs && !AllInvariants(cs[1], m, v);
    PathOfSomeAlternative(cs, yes);
    assert yes in Paths(cs[0]);
    MergeIsExact(Choice(cs), START, v);
  }

  lemma UntakenIsMergeable(test: Predicate, other: Predicate, v: Valuation)
    requires test.kind == other.kind == PATH && PureAction(test.action) && PureAction(other.action)
    requires !Holds(other.action, BLANK, v)
    ensures Mergeable(Choice([Basic([test]), Basic([other, Impossible()])]), v)
  {
    var yes, no := Basic([test]), Basic([other, Impossible()]);
    assert [other, Impossible()][1..] == [Impossible()];
    assert KeepKinds([test], {PATH}) == [test] && [Impossible()][1..] == [];
    assert KeepKinds([Impossible()], {PATH}) == KeepKinds([], {PATH});
    assert KeepKinds([other, Impossible()], {PATH}) == [other];
    SingletonExecutes([other], BLANK, v);
    assert Paths(Basic([other])) == {[other]};
    assert !GuardHolds(no, v) && GuardOk(yes) && GuardOk(no);
    assert forall c | c in [yes, no] :: c == yes || c == no;
  }

  function Impossible(): Predicate {
    Predicate(INVARIANT, Equality(Const(0), Const(1)))
  }

  // ---------- free-variable mode ----------

  /** In free-variable mode, an alternative that does not ask for an array which another
    * alternative asks for leaves that array unconstrained: if the alternative can be taken,
    * there is a solution in which the context denotes any contents at all for it. */
  lemma NonUniformChoiceForgetsArray(cs: seq<State>, k: nat, ctx: Context, tick: nat, v: Valuation, used: iset<nat>,
                                     inv: bool, end: Mem, id: ArrayId, contents: ArrVal) returns (w: Valuation)
    requires Early(ctx, used, tick) && k < |cs|
    requires Solves(cs[k], MemOf(ctx, v), Keys(ctx), v, true, inv, end)
    requires inv ==> forall c | c in cs :: CanMeet(c, MemOf(ctx, v), Keys(ctx), v)
    requires id in AllIds(cs) && id !in Keys(ctx) + Ids(cs[k])
    ensures Witnesses(Choice(cs), ctx, tick, v, w, true, inv, end[id := contents])
  {
    var m := MemOf(ctx, v);
    assert cs[k] in cs;
    SolutionKeepsUnknown(cs[k], m, Keys(ctx), v, true, inv, end);
    IdsOfAlternative(cs, k);
    var any := end[id := contents];
    assert SameOn(Keys(ctx) + Ids(cs[k]), end, any);
    assert Solves(Choice(cs), m, Keys(ctx), v, true, inv, any);
    w := SolutionIsWitnessed(Choice(cs), ctx, tick, v, used, true, inv, any);
  }

  /** Whichever solution the choice has, some path of the choice ends in the memory that the
    * context then denotes. */
  ghost predicate Remembers(cs: seq<State>, ctx: Context, tick: nat, v: Valuation, inv: bool) {
    forall w, end: Mem | Witnesses(Choice(cs), ctx, tick, v, w, true, inv, end) ::
      exists p :: p in AllPaths(cs) && Run(p, MemOf(ctx, v), v) == Some(end)
  }

  /** The alternative can be taken; with `inv`, its INVARIANT predicates met. */
  ghost predicate CanRun(c: State, ctx: Context, v: Valuation, inv: bool) {
    exists end: Mem :: Solves(c, MemOf(ctx, v), Keys(ctx), v, true, inv, end)
  }

  /** Where every alternative can be taken, a choice remembers memory exactly if its
    * alternatives ask for the same arrays; with the axioms or without. */
  lemma ChoiceRemembersIffUniform(cs: seq<State>, ctx: Context, tick: nat, v: Valuation, used: iset<nat>, inv: bool)
    requires Early(ctx, used, tick)
    requires forall c | c in cs :: Uniform(c, Keys(ctx)) && CanRun(c, ctx, v, inv)
    ensures Remembers(cs, ctx, tick, v, inv) <==> Uniform(Choice(cs), Keys(ctx))
  {
    if Uniform(Choice(cs), Keys(ctx)) {
      UniformRemembers(cs, ctx, tick, v, used, inv);
    } else {
      var c :| c in cs && !(AllIds(cs) <= Keys(ctx) + Ids(c));
      var k :| 0 <= k < |cs| && cs[k] == c;
      NonUniformForgets(cs, k, ctx, tick, v, used, inv);
    }
  }

  lemma UniformRemembers(cs: seq<State>, ctx: Context, tick: nat, v: Valuation, used: iset<nat>, inv: bool)
    requires Early(ctx, used, tick) && Uniform(Choice(cs), Keys(ctx))
    ensures Remembers(cs, ctx, tick, v, inv)
  {
    forall w, end: Mem | Witnesses(Choice(cs), ctx, tick, v, w, true, inv, end)
      ensures exists p :: p in AllPaths(cs) && Run(p, MemOf(ctx, v), v) == Some(end)
    {
      FreeMeans(Choice(cs), ctx, tick, v, used, true, inv, end);
      var p := SolutionIsPath(Choice(cs), MemOf(ctx, v), Keys(ctx), v, inv, end);
    }
  }

  lemma NonUniformForgets(cs: seq<State>, k: nat, ctx: Context, tick: nat, v: Valuation, used: iset<nat>, inv: bool)
    requires Early(ctx, used, tick) && (forall c | c in cs :: CanRun(c, ctx, v, inv))
    requires k < |cs| && !(AllIds(cs) <= Keys(ctx) + Ids(cs[k]))
    ensures !Remembers(cs, ctx, tick, v, inv)
  {
    var m := MemOf(ctx, v);
    var id :| id in AllIds(cs) && id !in Keys(ctx) + Ids(cs[k]);
    assert cs[k] in cs && CanRun(cs[k], ctx, v, inv);
    var end: Mem :| Solves(cs[k], m, Keys(ctx), v, true, inv, end);
    if inv {
      forall c | c in cs ensures CanMeet(c, m, Keys(ctx), v) {
        assert CanRun(c, ctx, v, inv);
        var other: Mem :| Solves(c, m, Keys(ctx), v, true, true, other);
        RunningMeets(c, m, Keys(ctx), v, other);
      }
    }
    var finals := set q | q in AllPaths(cs) && Executes(q, m, v) :: FinalArray(q, ctx, v, id);
    var contents := OtherContents(finals);
    var w := NonUniformChoiceForgetsArray(cs, k, ctx, tick, v, used, inv, end, id, contents);
    forall q | q in AllPaths(cs) && Executes(q, m, v)
      ensures Run(q, m, v) != Some(end[id := contents])
    {
      assert FinalArray(q, ctx, v, id) in finals;
    }
  }

  ghost function FinalArray(p: seq<Predicate>, ctx: Context, v: Valuation, id: ArrayId): ArrVal
    requires Executes(p, MemOf(ctx, v), v)
  {
    Run(p, MemOf(ctx, v), v).value[id]
  }

  /** Contents that are not among finitely many. */
  lemma OtherContents(known: set<ArrVal>) returns (contents: ArrVal)
    ensures contents !in known
  {
    var bound := BoundOf(known);
    contents := Constant(bound + 1);
    assert contents[0] == bound + 1;
  }

  lemma {:induction false} BoundOf(known: set<ArrVal>) returns (bound: int)
    ensures forall a | a in known :: a[0] <= bound
    decreases |known|
  {
    if known == {} {
      bound := 0;
    } else {
      var a :| a in known;
      var rest := BoundOf(known - {a});
      bound := if rest < a[0] then a[0] else rest;
      forall b | b in known ensures b[0] <= bound {
        assert b == a || b in known - {a};
      }
    }
  }
}
