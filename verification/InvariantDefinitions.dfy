/** INVARIANT predicates as programs emit them, definitions of variables and stores: asserting
  * those of branches that are not taken does no harm, since their variables can be chosen. */
module InvariantDefinitions {
  import opened SmtLogic
  import opened PredicateStates
  import opened StateAlgebra
  import opened Encoding
  import opened Meaning
  import opened Guards
  import opened MergedMeaning
  import opened MergeModeExact
  import opened FreeMeaning
  import opened FreeModeExact

  // ---------- the variables of a state ----------

  datatype Var = IntOf(name: string) | BoolOf(name: string)

  function IntNames(t: IntTerm): set<Var> {
    match t
    case Const(_) => {}
    case Value(x) => {IntOf(x)}
    case Load(_, p) => IntNames(p)
    case Binary(_, l, r) => IntNames(l) + IntNames(r)
  }

  function BoolNames(t: BoolTerm): set<Var> {
    match t
    case BoolLit(_) => {}
    case Flag(x) => {BoolOf(x)}
    case Compare(_, l, r) => IntNames(l) + IntNames(r)
    case Combine(_, p, q) => BoolNames(p) + BoolNames(q)
  }

  function ActionNames(a: Action): set<Var> {
    match a
    case Equality(l, r) => IntNames(l) + IntNames(r)
    case Inequality(l, r) => IntNames(l) + IntNames(r)
    case BoolEquality(p, q) => BoolNames(p) + BoolNames(q)
    case Write(_, p, x) => IntNames(p) + IntNames(x)
  }

  function DataNames(data: seq<Predicate>): set<Var> {
    if data == [] then {} else ActionNames(data[0].action) + DataNames(data[1..])
  }

  function Names(s: State): set<Var>
    decreases s, 1
  {
    match s
    case Basic(data) => DataNames(data)
    case Chain(base, curr) => Names(base) + Names(curr)
    case Choice(cs) => AllNames(cs)
  }

  function AllNames(cs: seq<State>): set<Var>
    decreases cs, 0
  {
    if cs == [] then {} else Names(cs[0]) + AllNames(cs[1..])
  }

  // ---------- definitions ----------

  /** The variable that an equation defines: an integer, a flag, or an integer by whether it
    * is zero. */
  function Defined(a: Action): Option<Var> {
    match a
    case Equality(Value(x), _) => Some(IntOf(x))
    case BoolEquality(Flag(x), _) => Some(BoolOf(x))
    case BoolEquality(Compare(Neq, Value(x), Const(n)), _) => if n == 0 then Some(IntOf(x)) else None
    case _ => None
  }

  function DefiningNames(a: Action): set<Var>
    requires Defined(a).Some?
  {
    match a
    case Equality(_, r) => IntNames(r)
    case BoolEquality(_, q) => BoolNames(q)
  }

  /** The variables that INVARIANT predicates define. */
  function DefsOf(p: Predicate): set<Var> {
    if p.kind == INVARIANT && Defined(p.action).Some? then {Defined(p.action).value} else {}
  }

  function DataDefs(data: seq<Predicate>): set<Var> {
    if data == [] then {} else DefsOf(data[0]) + DataDefs(data[1..])
  }

  function Defs(s: State): set<Var>
    decreases s, 1
  {
    match s
    case Basic(data) => DataDefs(data)
    case Chain(base, curr) => Defs(base) + Defs(curr)
    case Choice(cs) => AllDefs(cs)
  }

  function AllDefs(cs: seq<State>): set<Var>
    decreases cs, 0
  {
    if cs == [] then {} else Defs(cs[0]) + AllDefs(cs[1..])
  }

  /** The variables that are defined in branches. */
  function BranchDefs(s: State): set<Var> {
    match s
    case Basic(_) => {}
    case Chain(base, curr) => BranchDefs(base) + BranchDefs(curr)
    case Choice(cs) => AllDefs(cs)
  }

  predicate IsStoreOrDefinition(a: Action) {
    a.Write? || (Defined(a).Some? && Defined(a).value !in DefiningNames(a))
  }

  /** INVARIANT predicates are stores, or define a variable that has not been mentioned. */
  predicate InOrder(data: seq<Predicate>) {
    data == [] ||
    (&& (data[0].kind == INVARIANT ==> IsStoreOrDefinition(data[0].action))
     && ActionNames(data[0].action) !! DataDefs(data[1..])
     && InOrder(data[1..]))
  }

  /** Variables are defined before they are mentioned, and those that are defined in a branch
    * are mentioned only there. */
  predicate Scoped(s: State) {
    match s
    case Basic(data) => InOrder(data)
    case Chain(base, curr) =>
      Scoped(base) && Scoped(curr) && Names(base) !! Defs(curr) && BranchDefs(base) !! Names(curr)
    case Choice(cs) =>
      && (forall c | c in cs :: Scoped(c))
      && (forall i, j | 0 <= i < |cs| && 0 <= j < |cs| && i != j :: Names(cs[i]) !! Defs(cs[j]))
  }

  // ---------- changing variables ----------

  /** The valuations differ at most on these variables. */
  ghost predicate AgreeOff(v: Valuation, w: Valuation, names: set<Var>) {
    && v.arrays == w.arrays
    && (forall x | IntOf(x) !in names :: v.ints(x) == w.ints(x))
    && (forall x | BoolOf(x) !in names :: v.bools(x) == w.bools(x))
  }

  function SetInt(v: Valuation, x: string, n: int): Valuation {
    Valuation((y: string) => if y == x then n else v.ints(y), v.bools, v.arrays)
  }

  function SetFlag(v: Valuation, x: string, b: bool): Valuation {
    Valuation(v.ints, (y: string) => if y == x then b else v.bools(y), v.arrays)
  }

  /** The defined variable gets the value that the definition gives it. */
  ghost function Choose(a: Action, m: Mem, v: Valuation): Valuation
    requires Defined(a).Some?
  {
    match a
    case Equality(Value(x), r) => SetInt(v, x, IntValue(r, m, v))
    case BoolEquality(Flag(x), q) => SetFlag(v, x, if BoolValue(q, m, v) then true else false)
    case BoolEquality(Compare(_, Value(x), _), q) => SetInt(v, x, if BoolValue(q, m, v) then 1 else 0)
  }

  lemma {:induction false} IntValueKept(t: IntTerm, m: Mem, v: Valuation, w: Valuation, d: set<Var>)
    requires AgreeOff(v, w, d) && IntNames(t) !! d
    ensures IntValue(t, m, v) == IntValue(t, m, w)
  {
    match t
    case Value(x) => assert IntOf(x) !in d;
    case Load(_, p) => IntValueKept(p, m, v, w, d);
    case Binary(_, l, r) => IntValueKept(l, m, v, w, d); IntValueKept(r, m, v, w, d);
    case _ =>
  }

  lemma {:induction false} BoolValueKept(t: BoolTerm, m: Mem, v: Valuation, w: Valuation, d: set<Var>)
    requires AgreeOff(v, w, d) && BoolNames(t) !! d
    ensures BoolValue(t, m, v) == BoolValue(t, m, w)
  {
    match t
    case Flag(x) => assert BoolOf(x) !in d;
    case Compare(_, l, r) => IntValueKept(l, m, v, w, d); IntValueKept(r, m, v, w, d);
    case Combine(_, p, q) => BoolValueKept(p, m, v, w, d); BoolValueKept(q, m, v, w, d);
    case _ =>
  }

  lemma ActionKept(a: Action, m: Mem, v: Valuation, w: Valuation, d: set<Var>)
    requires AgreeOff(v, w, d) && ActionNames(a) !! d
    ensures Holds(a, m, v) == Holds(a, m, w) && After(a, m, v) == After(a, m, w)
  {
    match a
    case Equality(l, r) => IntValueKept(l, m, v, w, d); IntValueKept(r, m, v, w, d);
    case Inequality(l, r) => IntValueKept(l, m, v, w, d); IntValueKept(r, m, v, w, d);
    case BoolEquality(p, q) => BoolValueKept(p, m, v, w, d); BoolValueKept(q, m, v, w, d);
    case Write(_, p, x) => IntValueKept(p, m, v, w, d); IntValueKept(x, m, v, w, d);
  }

  lemma {:induction false} DataKept(p: seq<Predicate>, m: Mem, v: Valuation, w: Valuation, d: set<Var>)
    requires AgreeOff(v, w, d) && DataNames(p) !! d
    ensures Run(p, m, v) == Run(p, m, w) && Final(p, m, v) == Final(p, m, w)
    ensures InvariantsHold(p, m, v) == InvariantsHold(p, m, w)
  {
    if p != [] {
      ActionKept(p[0].action, m, v, w, d);
      DataKept(p[1..], After(p[0].action, m, v), v, w, d);
    }
  }

  // ---------- names of parts ----------

  lemma {:induction false} NamesOfConcat(p: seq<Predicate>, q: seq<Predicate>)
    ensures DataNames(p + q) == DataNames(p) + DataNames(q)
  {
    if p == [] {
      assert p + q == q;
    } else {
      assert (p + q)[0] == p[0] && (p + q)[1..] == p[1..] + q;
      NamesOfConcat(p[1..], q);
    }
  }

  lemma {:induction false} NamesOfAlternative(cs: seq<State>, i: nat)
    requires i < |cs|
    ensures Names(cs[i]) <= AllNames(cs) && Defs(cs[i]) <= AllDefs(cs)
  {
    if i > 0 {
      NamesOfAlternative(cs[1..], i - 1);
    }
  }

  lemma {:induction false} NamesOfPath(s: State, p: seq<Predicate>)
    requires p in Paths(s)
    ensures DataNames(p) <= Names(s)
    decreases s
  {
    match s
    case Basic(_) =>
    case Chain(base, curr) =>
      var x, y :| x in Paths(base) && y in Paths(curr) && p == Join(x, y);
      NamesOfPath(base, x);
      NamesOfPath(curr, y);
      NamesOfConcat(x, y);
    case Choice(cs) =>
      PathOfSomeAlternative(cs, p);
      var i :| 0 <= i < |cs| && p in Paths(cs[i]);
      NamesOfPath(cs[i], p);
      NamesOfAlternative(cs, i);
  }

  lemma {:induction false} NamesOfKept(data: seq<Predicate>)
    ensures DataNames(KeepKinds(data, {PATH})) <= DataNames(data)
  {
    if data != [] {
      NamesOfKept(data[1..]);
    }
  }

  lemma {:induction false} NamesOfFilter(s: State)
    ensures Names(FilterByTypes(s, {PATH})) <= Names(s)
    decreases s, 1
  {
    match s
    case Basic(data) => NamesOfKept(data);
    case Chain(base, curr) => NamesOfFilter(base); NamesOfFilter(curr);
    case Choice(cs) => NamesOfFilterAll(cs);
  }

  lemma {:induction false} NamesOfFilterAll(cs: seq<State>)
    ensures AllNames(FilterAll(cs, {PATH})) <= AllNames(cs)
    decreases cs, 0
  {
    if cs != [] {
      NamesOfFilter(cs[0]);
      NamesOfFilterAll(cs[1..]);
    }
  }

  lemma {:induction false} NamesOfSimplified(s: State)
    ensures Names(Simplify(s)) <= Names(s)
    decreases s, 1
  {
    match s
    case Basic(_) =>
    case Chain(base, curr) => NamesOfSimplified(base); NamesOfSimplified(curr);
    case Choice(cs) =>
      NamesOfSimplifiedAll(cs);
      if |SimplifyAll(cs)| == 1 {
        NamesOfAlternative(SimplifyAll(cs), 0);
      }
  }

  lemma {:induction false} NamesOfSimplifiedAll(cs: seq<State>)
    ensures AllNames(SimplifyAll(cs)) <= AllNames(cs)
    decreases cs, 0
  {
    if cs != [] {
      NamesOfSimplified(cs[0]);
      NamesOfSimplifiedAll(cs[1..]);
    }
  }

  lemma {:induction false} DefsAreNames(s: State)
    ensures Defs(s) <= Names(s)
    decreases s, 1
  {
    match s
    case Basic(data) => DataDefsAreNames(data);
    case Chain(base, curr) => DefsAreNames(base); DefsAreNames(curr);
    case Choice(cs) => AllDefsAreNames(cs);
  }

  lemma {:induction false} AllDefsAreNames(cs: seq<State>)
    ensures AllDefs(cs) <= AllNames(cs)
    decreases cs, 0
  {
    if cs != [] {
      DefsAreNames(cs[0]);
      AllDefsAreNames(cs[1..]);
    }
  }

  lemma {:induction false} DataDefsAreNames(data: seq<Predicate>)
    ensures DataDefs(data) <= DataNames(data)
  {
    if data != [] {
      DataDefsAreNames(data[1..]);
    }
  }

  lemma {:induction false} BranchDefsAreDefs(s: State)
    ensures BranchDefs(s) <= Defs(s)
  {
    match s
    case Basic(_) =>
    case Chain(base, curr) => BranchDefsAreDefs(base); BranchDefsAreDefs(curr);
    case Choice(_) =>
  }

  // ---------- merged memory and invariants depend on the names of a state ----------

  lemma SomePathKept(s: State, m: Mem, v: Valuation, w: Valuation, d: set<Var>)
    requires AgreeOff(v, w, d) && Names(s) !! d
    ensures SomePathExecutes(s, m, v) == SomePathExecutes(s, m, w)
  {
    forall p | p in Paths(s) ensures Executes(p, m, v) == Executes(p, m, w) {
      NamesOfPath(s, p);
      DataKept(p, m, v, w, d);
    }
  }

  lemma {:induction false} MergedKept(s: State, m: Mem, v: Valuation, w: Valuation, d: set<Var>)
    requires AgreeOff(v, w, d) && Names(s) !! d
    ensures MergedMem(s, m, v) == MergedMem(s, m, w)
    decreases s, 1
  {
    match s
    case Basic(data) => DataKept(data, m, v, w, d);
    case Chain(base, curr) =>
      MergedKept(base, m, v, w, d);
      MergedKept(curr, MergedMem(base, m, v), v, w, d);
    case Choice(cs) =>
      forall i | 0 <= i < |cs| ensures Names(cs[i]) <= AllNames(cs) {
        NamesOfAlternative(cs, i);
      }
      LastGuardedKept(cs, AllNames(cs), m, v, w, d);
  }

  lemma {:induction false} LastGuardedKept(cs: seq<State>, names: set<Var>, m: Mem, v: Valuation, w: Valuation,
                                           d: set<Var>)
    requires AgreeOff(v, w, d) && names !! d && forall i | 0 <= i < |cs| :: Names(cs[i]) <= names
    ensures LastGuarded(cs, m, v) == LastGuarded(cs, m, w)
    decreases cs, 0
  {
    if cs != [] {
      var n := |cs| - 1;
      MergedKept(cs[n], m, v, w, d);
      GuardKept(cs[n], m, v, w, d);
      LastGuardedKept(cs[..n], names, m, v, w, d);
    }
  }

  lemma GuardKept(c: State, m: Mem, v: Valuation, w: Valuation, d: set<Var>)
    requires AgreeOff(v, w, d) && Names(c) !! d && MergedMem(c, m, v) == MergedMem(c, m, w)
    ensures GuardIn(c, m, v) == GuardIn(c, m, w)
  {
    NamesOfFilter(c);
    NamesOfSimplified(FilterByTypes(c, {PATH}));
    SomePathKept(PathOf(c), MergedMem(c, m, v), v, w, d);
  }

  lemma {:induction false} AllInvariantsKept(s: State, m: Mem, v: Valuation, w: Valuation, d: set<Var>)
    requires AgreeOff(v, w, d) && Names(s) !! d
    ensures AllInvariants(s, m, v) == AllInvariants(s, m, w)
    decreases s
  {
    match s
    case Basic(data) => DataKept(data, m, v, w, d);
    case Chain(base, curr) =>
      MergedKept(base, m, v, w, d);
      AllInvariantsKept(base, m, v, w, d);
      AllInvariantsKept(curr, MergedMem(base, m, v), v, w, d);
    case Choice(cs) =>
      forall c | c in cs ensures AllInvariants(c, m, v) == AllInvariants(c, m, w) {
        var i :| 0 <= i < |cs| && cs[i] == c;
        NamesOfAlternative(cs, i);
        AllInvariantsKept(c, m, v, w, d);
      }
  }

  // ---------- choosing the variables of a branch ----------

  lemma ChosenHolds(a: Action, m: Mem, v: Valuation)
    requires Defined(a).Some? && Defined(a).value !in DefiningNames(a)
    ensures var w := Choose(a, m, v); AgreeOff(v, w, {Defined(a).value}) && Holds(a, m, w)
  {
    var w, d := Choose(a, m, v), {Defined(a).value};
    match a
    case Equality(_, r) => IntValueKept(r, m, v, w, d);
    case BoolEquality(_, q) => BoolValueKept(q, m, v, w, d);
  }

  lemma {:induction false} DefineData(data: seq<Predicate>, m: Mem, v: Valuation) returns (w: Valuation)
    requires InOrder(data)
    ensures AgreeOff(v, w, DataDefs(data)) && InvariantsHold(data, m, w)
  {
    if data == [] {
      w := v;
    } else {
      var a := data[0].action;
      var v1 := v;
      if DefsOf(data[0]) != {} {
        v1 := Choose(a, m, v);
        ChosenHolds(a, m, v);
      }
      w := DefineData(data[1..], After(a, m, v1), v1);
      ActionKept(a, m, v1, w, DataDefs(data[1..]));
    }
  }

  /** The variables that a state defines can be chosen so that its INVARIANT predicates hold,
    * those of all alternatives. */
  lemma {:induction false} Define(s: State, m: Mem, v: Valuation) returns (w: Valuation)
    requires Scoped(s)
    ensures AgreeOff(v, w, Defs(s)) && AllInvariants(s, m, w)
    decreases s, 1
  {
    match s
    case Basic(data) => w := DefineData(data, m, v);
    case Chain(base, curr) =>
      var v1 := Define(base, m, v);
      w := Define(curr, MergedMem(base, m, v1), v1);
      MergedKept(base, m, v1, w, Defs(curr));
      AllInvariantsKept(base, m, v1, w, Defs(curr));
    case Choice(cs) =>
      w := DefineOthers(cs, |cs|, |cs|, m, v);
      forall c | c in cs ensures AllInvariants(c, m, w) {
        var i :| 0 <= i < |cs| && cs[i] == c;
      }
      OthersAreDefs(cs, |cs|, |cs|);
  }

  /** The variables of the first n alternatives, except alternative k. */
  function DefsOfOthers(cs: seq<State>, n: nat, k: nat): set<Var>
    requires n <= |cs|
  {
    if n == 0 then {} else DefsOfOthers(cs, n - 1, k) + if n - 1 == k then {} else Defs(cs[n - 1])
  }

  lemma {:induction false} OthersAreDefs(cs: seq<State>, n: nat, k: nat)
    requires n <= |cs|
    ensures DefsOfOthers(cs, n, k) <= AllDefs(cs)
  {
    if n > 0 {
      OthersAreDefs(cs, n - 1, k);
      NamesOfAlternative(cs, n - 1);
    }
  }

  lemma {:induction false} OthersAreApart(cs: seq<State>, n: nat, k: nat)
    requires n <= |cs| && k < |cs| && Scoped(Choice(cs))
    ensures Names(cs[k]) !! DefsOfOthers(cs, n, k)
  {
    if n > 0 {
      OthersAreApart(cs, n - 1, k);
    }
  }

  lemma {:induction false} DefineOthers(cs: seq<State>, n: nat, k: nat, m: Mem, v: Valuation) returns (w: Valuation)
    requires n <= |cs| && Scoped(Choice(cs))
    ensures AgreeOff(v, w, DefsOfOthers(cs, n, k))
    ensures forall i | 0 <= i < n && i != k :: AllInvariants(cs[i], m, w)
    decreases cs, 0, n
  {
    if n == 0 {
      w := v;
    } else {
      var v1 := DefineOthers(cs, n - 1, k, m, v);
      if n - 1 == k {
        w := v1;
      } else {
        assert cs[n - 1] in cs;
        w := Define(cs[n - 1], m, v1);
        forall i | 0 <= i < n - 1 && i != k ensures AllInvariants(cs[i], m, w) {
          AllInvariantsKept(cs[i], m, v1, w, Defs(cs[n - 1]));
        }
      }
    }
  }

  // ---------- keeping a path ----------

  lemma GuardInMeans(c: State, m: Mem, v: Valuation)
    requires GuardOk(c)
    ensures GuardIn(c, m, v) <==> GuardHolds(c, v)
  {
    var g := FilterByTypes(c, {PATH});
    SimplifyStaysPure(g);
    PureStateHasPurePaths(PathOf(c));
    forall p | p in Paths(PathOf(c)) ensures Executes(p, MergedMem(c, m, v), v) == Executes(p, BLANK, v) {
      PurePathRuns(p, MergedMem(c, m, v), BLANK, v);
    }
    FaithfulMeans(g, v);
  }

  /** Merged memory is the memory in which the path that executes ends. */
  lemma {:induction false} MergedIsRun(s: State, m: Mem, v: Valuation, p: seq<Predicate>)
    requires Mergeable(s, v) && p in Paths(s) && Executes(p, m, v)
    ensures Run(p, m, v) == Some(MergedMem(s, m, v))
    decreases s
  {
    match s
    case Basic(data) => FinalIsRun(data, m, v);
    case Chain(base, curr) =>
      var x, y :| x in Paths(base) && y in Paths(curr) && p == Join(x, y);
      RunConcat(x, y, m, v);
      MergedIsRun(base, m, v, x);
      MergedIsRun(curr, MergedMem(base, m, v), v, y);
    case Choice(cs) =>
      PathOfSomeAlternative(cs, p);
      var k :| 0 <= k < |cs| && p in Paths(cs[k]);
      assert cs[k] in cs;
      MergedIsRun(cs[k], m, v, p);
      OnlyGuard(cs, k, m, v, p);
      LastGuardedPicks(cs, m, v, k);
  }

  lemma OnlyGuard(cs: seq<State>, k: nat, m: Mem, v: Valuation, p: seq<Predicate>)
    requires Mergeable(Choice(cs), v) && k < |cs| && p in Paths(cs[k]) && Executes(p, m, v)
    ensures GuardIn(cs[k], m, v) && forall j | k < j < |cs| :: !GuardIn(cs[j], m, v)
  {
    assert cs[k] in cs;
    ExecutionImpliesGuard(cs[k], p, m, v);
    forall j | k <= j < |cs| ensures GuardIn(cs[j], m, v) <==> GuardHolds(cs[j], v) {
      assert cs[j] in cs;
      GuardInMeans(cs[j], m, v);
    }
  }

  ghost predicate Good(p: seq<Predicate>, m: Mem, v: Valuation) {
    Executes(p, m, v) && InvariantsHold(p, m, v)
  }

  /** The path is as good as it was, and all alternatives meet their INVARIANT predicates. */
  ghost predicate Repaired(s: State, m: Mem, p: seq<Predicate>, v: Valuation, w: Valuation) {
    AgreeOff(v, w, BranchDefs(s)) && Good(p, m, w) && Run(p, m, w) == Run(p, m, v) && AllInvariants(s, m, w)
  }

  /** The variables of the branches that a good path leaves aside can be chosen so that all
    * INVARIANT predicates hold. */
  lemma {:induction false} Repair(s: State, m: Mem, p: seq<Predicate>, v: Valuation) returns (w: Valuation)
    requires Scoped(s) && (forall u :: Mergeable(s, u)) && p in Paths(s) && Good(p, m, v)
    ensures Repaired(s, m, p, v, w)
    decreases s
  {
    match s
    case Basic(_) => w := v;
    case Chain(base, curr) =>
      var x, y :| x in Paths(base) && y in Paths(curr) && p == Join(x, y);
      EachPartMergeable(base, curr);
      RunConcat(x, y, m, v);
      var mid := Run(x, m, v).value;
      var v1 := Repair(base, m, x, v);
      NamesOfPath(curr, y);
      DataKept(y, mid, v, v1, BranchDefs(base));
      w := Repair(curr, mid, y, v1);
      RepairedInTurn(base, curr, m, x, y, v, v1, w);
    case Choice(cs) =>
      PathOfSomeAlternative(cs, p);
      var k :| 0 <= k < |cs| && p in Paths(cs[k]);
      EachAlternativeMergeable(cs, k);
      var v1 := Repair(cs[k], m, p, v);
      w := DefineOthers(cs, |cs|, k, m, v1);
      RepairedChoice(cs, k, m, p, v, v1, w);
  }

  lemma EachPartMergeable(base: State, curr: State)
    requires forall u :: Mergeable(Chain(base, curr), u)
    ensures forall u :: Mergeable(base, u)
    ensures forall u :: Mergeable(curr, u)
  {
    forall u ensures Mergeable(base, u) && Mergeable(curr, u) {
      assert Mergeable(Chain(base, curr), u);
    }
  }

  lemma EachAlternativeMergeable(cs: seq<State>, k: nat)
    requires k < |cs| && forall u :: Mergeable(Choice(cs), u)
    ensures forall u :: Mergeable(cs[k], u)
  {
    forall u ensures Mergeable(cs[k], u) {
      assert Mergeable(Choice(cs), u) && cs[k] in cs;
    }
  }

  lemma RepairedInTurn(base: State, curr: State, m: Mem, x: seq<Predicate>, y: seq<Predicate>,
                       v: Valuation, v1: Valuation, w: Valuation)
    requires Scoped(Chain(base, curr)) && Mergeable(base, w) && x in Paths(base) && Executes(x, m, v)
    requires Repaired(base, m, x, v, v1)
    requires var mid := Run(x, m, v).value; Repaired(curr, mid, y, v1, w) && Run(y, mid, v1) == Run(y, mid, v)
    ensures Repaired(Chain(base, curr), m, Join(x, y), v, w)
  {
    BranchDefsAreDefs(curr);
    NamesOfPath(base, x);
    DataKept(x, m, v1, w, BranchDefs(curr));
    AllInvariantsKept(base, m, v1, w, BranchDefs(curr));
    RunConcat(x, y, m, v);
    RunConcat(x, y, m, w);
    MergedIsRun(base, m, w, x);
  }

  lemma RepairedChoice(cs: seq<State>, k: nat, m: Mem, p: seq<Predicate>, v: Valuation, v1: Valuation, w: Valuation)
    requires Scoped(Choice(cs)) && k < |cs| && p in Paths(cs[k]) && Repaired(cs[k], m, p, v, v1)
    requires AgreeOff(v1, w, DefsOfOthers(cs, |cs|, k))
    requires forall i | 0 <= i < |cs| && i != k :: AllInvariants(cs[i], m, w)
    ensures Repaired(Choice(cs), m, p, v, w)
  {
    var others := DefsOfOthers(cs, |cs|, k);
    OthersAreApart(cs, |cs|, k);
    NamesOfPath(cs[k], p);
    DataKept(p, m, v1, w, others);
    AllInvariantsKept(cs[k], m, v1, w, others);
    BranchDefsAreDefs(cs[k]);
    NamesOfAlternative(cs, k);
    OthersAreDefs(cs, |cs|, k);
    forall c | c in cs ensures AllInvariants(c, m, w) {
      var i :| 0 <= i < |cs| && cs[i] == c;
    }
  }

  // ---------- keeping a path of the free-variable encoder ----------

  lemma {:induction false} SolvesKept(s: State, m: Mem, keys: set<ArrayId>, v: Valuation, w: Valuation, d: set<Var>,
                                      run: bool, inv: bool, end: Mem)
    requires AgreeOff(v, w, d) && Names(s) !! d && Solves(s, m, keys, v, run, inv, end)
    ensures Solves(s, m, keys, w, run, inv, end)
    decreases s, 0
  {
    match s
    case Basic(data) => DataKept(data, m, v, w, d);
    case Chain(base, curr) =>
      var mid: Mem :| Solves(base, m, keys, v, run, inv, mid)
        && Solves(curr, mid, keys + Ids(base), v, run, inv, end);
      SolvesKept(base, m, keys, v, w, d, run, inv, mid);
      SolvesKept(curr, mid, keys + Ids(base), v, w, d, run, inv, end);
    case Choice(cs) =>
      forall c | c in cs && inv ensures CanMeet(c, m, keys, w) {
        var i :| 0 <= i < |cs| && cs[i] == c;
        NamesOfAlternative(cs, i);
        CanMeetKept(c, m, keys, v, w, d);
      }
      if run {
        var c, chosen: Mem :| c in cs && Solves(c, m, keys, v, true, inv, chosen) && SameOn(keys + Ids(c), chosen, end);
        var i :| 0 <= i < |cs| && cs[i] == c;
        NamesOfAlternative(cs, i);
        SolvesKept(c, m, keys, v, w, d, true, inv, chosen);
      }
  }

  lemma {:induction false} CanMeetKept(s: State, m: Mem, keys: set<ArrayId>, v: Valuation, w: Valuation, d: set<Var>)
    requires AgreeOff(v, w, d) && Names(s) !! d && CanMeet(s, m, keys, v)
    ensures CanMeet(s, m, keys, w)
    decreases s, 1
  {
    var end: Mem :| Solves(s, m, keys, v, false, true, end);
    SolvesKept(s, m, keys, v, w, d, false, true, end);
  }

  lemma {:induction false} PassesKept(s: State, m: Mem, keys: set<ArrayId>, v: Valuation, w: Valuation, d: set<Var>,
                                      p: seq<Predicate>)
    requires AgreeOff(v, w, d) && Names(s) !! d && Passes(s, m, keys, v, p)
    ensures Passes(s, m, keys, w, p)
    decreases s
  {
    match s
    case Basic(_) =>
    case Chain(base, curr) =>
      var x, y :| x in Paths(base) && y in Paths(curr) && p == Join(x, y) && Executes(x, m, v)
        && Passes(base, m, keys, v, x) && Passes(curr, Run(x, m, v).value, keys + Ids(base), v, y);
      NamesOfPath(base, x);
      DataKept(x, m, v, w, d);
      PassesKept(base, m, keys, v, w, d, x);
      PassesKept(curr, Run(x, m, v).value, keys + Ids(base), v, w, d, y);
    case Choice(cs) =>
      forall c | c in cs ensures CanMeet(c, m, keys, w) {
        var i :| 0 <= i < |cs| && cs[i] == c;
        NamesOfAlternative(cs, i);
        CanMeetKept(c, m, keys, v, w, d);
      }
      var c :| c in cs && p in Paths(c) && Passes(c, m, keys, v, p);
      var i :| 0 <= i < |cs| && cs[i] == c;
      NamesOfAlternative(cs, i);
      PassesKept(c, m, keys, v, w, d, p);
  }

  /** The variables that a state defines can be chosen so that its INVARIANT predicates can
    * hold, those of all alternatives. */
  lemma {:induction false} DefineFree(s: State, m: Mem, keys: set<ArrayId>, v: Valuation)
    returns (w: Valuation, end: Mem)
    requires Scoped(s)
    ensures AgreeOff(v, w, Defs(s)) && Solves(s, m, keys, w, false, true, end)
    decreases s, 1
  {
    match s
    case Basic(data) =>
      w := DefineData(data, m, v);
      end := Final(data, m, w);
    case Chain(base, curr) =>
      var v1, mid := DefineFree(base, m, keys, v);
      w, end := DefineFree(curr, mid, keys + Ids(base), v1);
      SolvesKept(base, m, keys, v1, w, Defs(curr), false, true, mid);
    case Choice(cs) =>
      w := DefineOthersFree(cs, |cs|, |cs|, m, keys, v);
      end := m;
      forall c | c in cs ensures CanMeet(c, m, keys, w) {
        var i :| 0 <= i < |cs| && cs[i] == c;
      }
      OthersAreDefs(cs, |cs|, |cs|);
  }

  lemma {:induction false} DefineOthersFree(cs: seq<State>, n: nat, k: nat, m: Mem, keys: set<ArrayId>, v: Valuation)
    returns (w: Valuation)
    requires n <= |cs| && Scoped(Choice(cs))
    ensures AgreeOff(v, w, DefsOfOthers(cs, n, k))
    ensures forall i | 0 <= i < n && i != k :: CanMeet(cs[i], m, keys, w)
    decreases cs, 0, n
  {
    if n == 0 {
      w := v;
    } else {
      var v1 := DefineOthersFree(cs, n - 1, k, m, keys, v);
      if n - 1 == k {
        w := v1;
      } else {
        assert cs[n - 1] in cs;
        var end;
        w, end := DefineFree(cs[n - 1], m, keys, v1);
        forall i | 0 <= i < n - 1 && i != k ensures CanMeet(cs[i], m, keys, w) {
          CanMeetKept(cs[i], m, keys, v1, w, Defs(cs[n - 1]));
        }
      }
    }
  }

  /** The path is as good as it was, and the INVARIANT predicates of the alternatives that it
    * leaves aside can hold. */
  ghost predicate Freed(s: State, m: Mem, keys: set<ArrayId>, p: seq<Predicate>, v: Valuation, w: Valuation) {
    AgreeOff(v, w, BranchDefs(s)) && Good(p, m, w) && Run(p, m, w) == Run(p, m, v) && Passes(s, m, keys, w, p)
  }

  lemma {:induction false} Free(s: State, m: Mem, keys: set<ArrayId>, p: seq<Predicate>, v: Valuation)
    returns (w: Valuation)
    requires Scoped(s) && p in Paths(s) && Good(p, m, v)
    ensures Freed(s, m, keys, p, v, w)
    decreases s
  {
    match s
    case Basic(_) => w := v;
    case Chain(base, curr) =>
      var x, y :| x in Paths(base) && y in Paths(curr) && p == Join(x, y);
      RunConcat(x, y, m, v);
      var mid := Run(x, m, v).value;
      var v1 := Free(base, m, keys, x, v);
      NamesOfPath(curr, y);
      DataKept(y, mid, v, v1, BranchDefs(base));
      w := Free(curr, mid, keys + Ids(base), y, v1);
      FreedInTurn(base, curr, m, keys, x, y, v, v1, w);
    case Choice(cs) =>
      PathOfSomeAlternative(cs, p);
      var k :| 0 <= k < |cs| && p in Paths(cs[k]);
      assert cs[k] in cs;
      var v1 := Free(cs[k], m, keys, p, v);
      w := DefineOthersFree(cs, |cs|, k, m, keys, v1);
      FreedChoice(cs, k, m, keys, p, v, v1, w);
  }

  lemma FreedInTurn(base: State, curr: State, m: Mem, keys: set<ArrayId>, x: seq<Predicate>, y: seq<Predicate>,
                    v: Valuation, v1: Valuation, w: Valuation)
    requires Scoped(Chain(base, curr)) && x in Paths(base) && y in Paths(curr) && Executes(x, m, v)
    requires Freed(base, m, keys, x, v, v1)
    requires var mid := Run(x, m, v).value;
      Freed(curr, mid, keys + Ids(base), y, v1, w) && Run(y, mid, v1) == Run(y, mid, v)
    ensures Freed(Chain(base, curr), m, keys, Join(x, y), v, w)
  {
    BranchDefsAreDefs(curr);
    NamesOfPath(base, x);
    DataKept(x, m, v1, w, BranchDefs(curr));
    PassesKept(base, m, keys, v1, w, BranchDefs(curr), x);
    RunConcat(x, y, m, v);
    RunConcat(x, y, m, w);
  }

  lemma FreedChoice(cs: seq<State>, k: nat, m: Mem, keys: set<ArrayId>, p: seq<Predicate>, v: Valuation,
                    v1: Valuation, w: Valuation)
    requires Scoped(Choice(cs)) && k < |cs| && p in Paths(cs[k]) && Freed(cs[k], m, keys, p, v, v1)
    requires AgreeOff(v1, w, DefsOfOthers(cs, |cs|, k))
    requires forall i | 0 <= i < |cs| && i != k :: CanMeet(cs[i], m, keys, w)
    ensures Freed(Choice(cs), m, keys, p, v, w)
  {
    var others := DefsOfOthers(cs, |cs|, k);
    OthersAreApart(cs, |cs|, k);
    NamesOfPath(cs[k], p);
    DataKept(p, m, v1, w, others);
    PassesKept(cs[k], m, keys, v1, w, others, p);
    GoodPathMeets(cs[k], m, keys, w, p);
    BranchDefsAreDefs(cs[k]);
    NamesOfAlternative(cs, k);
    OthersAreDefs(cs, |cs|, k);
    forall c | c in cs ensures CanMeet(c, m, keys, w) {
      var i :| 0 <= i < |cs| && cs[i] == c;
    }
    assert cs[k] in cs;
  }

  lemma GoodPathMeets(s: State, m: Mem, keys: set<ArrayId>, v: Valuation, p: seq<Predicate>)
    requires p in Paths(s) && Good(p, m, v) && Passes(s, m, keys, v, p)
    ensures CanMeet(s, m, keys, v)
  {
    var end := Run(p, m, v).value;
    PathIsSolution(s, m, keys, v, true, p, end);
    RunningMeets(s, m, keys, v, end);
  }

  // ---------- main results ----------

  /** The arrays of the context do not mention the variables that branches define. */
  ghost predicate Independent(ctx: Context, s: State) {
    forall v, w: Valuation | AgreeOff(v, w, BranchDefs(s)) :: MemOf(ctx, v) == MemOf(ctx, w)
  }

  ghost predicate MergeAsserts(s: State, ctx: Context, v: Valuation) {
    Eval(Encode(s, ctx, false).0.expr, v) && Eval(Encode(s, ctx, false).0.axiom, v)
  }

  /** Where INVARIANT predicates are stores and definitions in scope, a path that executes and
    * meets its own can be asserted, by choosing the variables of other branches. */
  lemma GoodPathCanBeAsserted(s: State, ctx: Context, v: Valuation) returns (w: Valuation)
    requires ctx.Valid() && Scoped(s) && Independent(ctx, s) && forall u :: Mergeable(s, u)
    requires SomePathIsGood(s, MemOf(ctx, v), v)
    ensures AgreeOff(v, w, BranchDefs(s)) && MergeAsserts(s, ctx, w)
  {
    var m := MemOf(ctx, v);
    var p :| p in Paths(s) && Executes(p, m, v) && InvariantsHold(p, m, v);
    w := Repair(s, m, p, v);
    assert MemOf(ctx, w) == m && Mergeable(s, w);
    MergeAssertsIff(s, ctx, w);
  }

  /** The same for the external arrays of the other encoder, whatever the guards are. */
  lemma GoodPathCanBeSolved(s: State, ctx: Context, tick: nat, v: Valuation, used: iset<nat>) returns (w: Valuation)
    requires Early(ctx, used, tick) && Scoped(s) && Independent(ctx, s)
    requires SomePathIsGood(s, MemOf(ctx, v), v)
    ensures AgreeOff(v, w, BranchDefs(s)) && Solvable(s, ctx, tick, w, true)
  {
    var m := MemOf(ctx, v);
    var p :| p in Paths(s) && Executes(p, m, v) && InvariantsHold(p, m, v);
    w := Free(s, m, Keys(ctx), p, v);
    assert MemOf(ctx, w) == m;
    var z := FreeIsComplete(s, ctx, tick, w, used, true, p, Run(p, m, w).value);
  }

  /** Then what either encoder asserts is satisfiable exactly if there is a valuation under
    * which some path of the state executes and meets its INVARIANT predicates. Merging needs
    * its conditions on guards for that; free variables need alternatives that ask for the
    * same arrays. */
  lemma AssertionIsSatisfiableIff(s: State, ctx: Context, tick: nat, used: iset<nat>)
    requires Early(ctx, used, tick) && Scoped(s) && Independent(ctx, s)
    ensures (forall u :: Mergeable(s, u)) ==>
      ((exists v :: MergeAsserts(s, ctx, v)) <==> (exists v :: SomePathIsGood(s, MemOf(ctx, v), v)))
    ensures Uniform(s, Keys(ctx)) ==>
      ((exists v :: Solvable(s, ctx, tick, v, true)) <==> (exists v :: SomePathIsGood(s, MemOf(ctx, v), v)))
  {
    if forall u :: Mergeable(s, u) {
      forall v | MergeAsserts(s, ctx, v) ensures SomePathIsGood(s, MemOf(ctx, v), v) {
        MergeAssertsIff(s, ctx, v);
      }
      forall v | SomePathIsGood(s, MemOf(ctx, v), v) ensures exists w :: MergeAsserts(s, ctx, w) {
        var w := GoodPathCanBeAsserted(s, ctx, v);
      }
    }
    if Uniform(s, Keys(ctx)) {
      forall v | SomePathIsGood(s, MemOf(ctx, v), v) ensures exists w :: Solvable(s, ctx, tick, w, true) {
        var w := GoodPathCanBeSolved(s, ctx, tick, v, used);
      }
      forall v | Solvable(s, ctx, tick, v, true) ensures SomePathIsGood(s, MemOf(ctx, v), v) {
        FreeSatisfiableIffSomePathExecutes(s, ctx, tick, v, used);
      }
    }
  }
}
