/** Path conditions of alternatives: when the simplified PATH filter of an alternative is
  * true exactly when some path through the alternative satisfies its PATH predicates. */
module Guards {
  import opened SmtLogic
  import opened PredicateStates
  import opened StateAlgebra
  import opened Meaning

  // ---------- predicates that neither read nor write memory ----------

  predicate PureInt(t: IntTerm) {
    match t
    case Const(_) => true
    case Value(_) => true
    case Load(_, _) => false
    case Binary(_, l, r) => PureInt(l) && PureInt(r)
  }

  predicate PureBool(t: BoolTerm) {
    match t
    case BoolLit(_) => true
    case Flag(_) => true
    case Compare(_, l, r) => PureInt(l) && PureInt(r)
    case Combine(_, p, q) => PureBool(p) && PureBool(q)
  }

  predicate PureAction(a: Action) {
    match a
    case Equality(l, r) => PureInt(l) && PureInt(r)
    case Inequality(l, r) => PureInt(l) && PureInt(r)
    case BoolEquality(p, q) => PureBool(p) && PureBool(q)
    case Write(_, _, _) => false
  }

  predicate PurePath(p: seq<Predicate>) {
    forall i | 0 <= i < |p| :: p[i].kind == PATH && PureAction(p[i].action)
  }

  predicate PureState(s: State) {
    match s
    case Basic(data) => PurePath(data)
    case Chain(base, curr) => PureState(base) && PureState(curr)
    case Choice(cs) => forall c | c in cs :: PureState(c)
  }

  lemma {:induction false} PureIntIgnoresMemory(t: IntTerm, m: Mem, n: Mem, v: Valuation)
    requires PureInt(t)
    ensures IntValue(t, m, v) == IntValue(t, n, v)
  {
    match t
    case Binary(_, l, r) =>
      PureIntIgnoresMemory(l, m, n, v);
      PureIntIgnoresMemory(r, m, n, v);
    case _ =>
  }

  lemma {:induction false} PureBoolIgnoresMemory(t: BoolTerm, m: Mem, n: Mem, v: Valuation)
    requires PureBool(t)
    ensures BoolValue(t, m, v) == BoolValue(t, n, v)
  {
    match t
    case Compare(_, l, r) =>
      PureIntIgnoresMemory(l, m, n, v);
      PureIntIgnoresMemory(r, m, n, v);
    case Combine(_, p, q) =>
      PureBoolIgnoresMemory(p, m, n, v);
      PureBoolIgnoresMemory(q, m, n, v);
    case _ =>
  }

  lemma PureActionIgnoresMemory(a: Action, m: Mem, n: Mem, v: Valuation)
    requires PureAction(a)
    ensures Holds(a, m, v) == Holds(a, n, v)
  {
    match a
    case Equality(l, r) =>
      PureIntIgnoresMemory(l, m, n, v);
      PureIntIgnoresMemory(r, m, n, v);
    case Inequality(l, r) =>
      PureIntIgnoresMemory(l, m, n, v);
      PureIntIgnoresMemory(r, m, n, v);
    case BoolEquality(p, q) =>
      PureBoolIgnoresMemory(p, m, n, v);
      PureBoolIgnoresMemory(q, m, n, v);
  }

  /** A pure path changes no memory, and whether it executes does not depend on memory. */
  lemma {:induction false} PurePathRuns(p: seq<Predicate>, m: Mem, n: Mem, v: Valuation)
    requires PurePath(p)
    ensures Executes(p, m, v) ==> Run(p, m, v) == Some(m)
    ensures Executes(p, m, v) == Executes(p, n, v)
  {
    if p != [] {
      PureActionIgnoresMemory(p[0].action, m, n, v);
      PurePathRuns(p[1..], m, n, v);
    }
  }

  lemma {:induction false} PureStateHasPurePaths(s: State)
    requires PureState(s)
    ensures forall p | p in Paths(s) :: PurePath(p)
    decreases s, 1
  {
    match s
    case Basic(_) =>
    case Chain(base, curr) =>
      PureStateHasPurePaths(base);
      PureStateHasPurePaths(curr);
    case Choice(cs) =>
      forall p | p in AllPaths(cs)
        ensures PurePath(p)
      {
        PathOfSomeAlternative(cs, p);
        var i :| 0 <= i < |cs| && p in Paths(cs[i]);
        PureStateHasPurePaths(cs[i]);
      }
  }

  // ---------- whether some path of a pure state holds ----------

  ghost const BLANK: Mem := FilledMem(Constant(0))

  ghost predicate CanHold(s: State, v: Valuation) {
    exists p :: p in Paths(s) && Executes(p, BLANK, v)
  }

  lemma CanHoldChain(base: State, curr: State, v: Valuation)
    requires PureState(base) && PureState(curr)
    ensures CanHold(Chain(base, curr), v) <==> CanHold(base, v) && CanHold(curr, v)
  {
    PureStateHasPurePaths(base);
    forall p, q | p in Paths(base) && q in Paths(curr)
      ensures Executes(Join(p, q), BLANK, v) <==> Executes(p, BLANK, v) && Executes(q, BLANK, v)
    {
      RunConcat(p, q, BLANK, v);
      PurePathRuns(p, BLANK, BLANK, v);
    }
    if CanHold(base, v) && CanHold(curr, v) {
      var p :| p in Paths(base) && Executes(p, BLANK, v);
      var q :| q in Paths(curr) && Executes(q, BLANK, v);
      assert Join(p, q) in Paths(Chain(base, curr));
    }
  }

  lemma CanHoldChoice(cs: seq<State>, v: Valuation)
    ensures CanHold(Choice(cs), v) <==> exists c :: c in cs && CanHold(c, v)
  {
    if CanHold(Choice(cs), v) {
      var p :| p in AllPaths(cs) && Executes(p, BLANK, v);
      PathOfSomeAlternative(cs, p);
      var i :| 0 <= i < |cs| && p in Paths(cs[i]);
      assert cs[i] in cs && CanHold(cs[i], v);
    }
    forall c | c in cs && CanHold(c, v)
      ensures CanHold(Choice(cs), v)
    {
      var p :| p in Paths(c) && Executes(p, BLANK, v);
      var i :| 0 <= i < |cs| && cs[i] == c;
      PathOfSomeAlternative(cs, p);
    }
  }

  // ---------- simplification of path conditions ----------

  /** The simplifier treats this state as having nothing in it. */
  predicate Drops(s: State) {
    IsEmpty(Simplify(s))
  }

  /** What a dropped state means, whatever the valuation. */
  predicate DroppedTruth(s: State) {
    match s
    case Basic(_) => true
    case Chain(base, curr) => DroppedTruth(base) && DroppedTruth(curr)
    case Choice(cs) => Complementary(SimplifyAll(cs)) || exists c | c in cs :: DroppedTruth(c)
  }

  /** A dropped state whose meaning `DroppedTruth` gives. */
  predicate Settled(s: State) {
    match s
    case Basic(_) => true
    case Chain(base, curr) => Settled(base) && Settled(curr)
    case Choice(cs) =>
      if Complementary(SimplifyAll(cs)) then forall c | c in cs && !Drops(c) :: Faithful(c)
      else forall c | c in cs :: Settled(c)
  }

  /** Simplification keeps the meaning: nothing true is dropped from a choice, nothing
    * false is dropped from a chain, and a complementary pair collapses only where a chain
    * goes on to drop it. */
  predicate Faithful(s: State) {
    match s
    case Basic(_) => true
    case Chain(base, curr) =>
      if Drops(curr) then Settled(curr) && DroppedTruth(curr) && Faithful(base)
      else if Drops(base) then Settled(base) && DroppedTruth(base) && Faithful(curr)
      else Faithful(base) && Faithful(curr)
    case Choice(cs) =>
      && !Complementary(SimplifyAll(cs))
      && forall c | c in cs :: if Drops(c) then Settled(c) && !DroppedTruth(c) else Faithful(c)
  }

  lemma {:induction false} KeptComeFromAlternatives(cs: seq<State>)
    ensures forall k | k in SimplifyAll(cs) :: exists c :: c in cs && !Drops(c) && k == Simplify(c)
    ensures forall c | c in cs && !Drops(c) :: Simplify(c) in SimplifyAll(cs)
  {
    if cs != [] {
      KeptComeFromAlternatives(cs[1..]);
      forall k | k in SimplifyAll(cs)
        ensures exists c :: c in cs && !Drops(c) && k == Simplify(c)
      {
        if k in SimplifyAll(cs[1..]) {
          var c :| c in cs[1..] && !Drops(c) && k == Simplify(c);
          assert c in cs;
        } else {
          assert cs[0] in cs && !Drops(cs[0]) && k == Simplify(cs[0]);
        }
      }
    }
  }

  lemma {:induction false} SimplifyStaysPure(s: State)
    requires PureState(s)
    ensures PureState(Simplify(s))
    decreases s
  {
    match s
    case Basic(_) =>
    case Chain(base, curr) =>
      SimplifyStaysPure(base);
      SimplifyStaysPure(curr);
    case Choice(cs) =>
      KeptComeFromAlternatives(cs);
      forall k | k in SimplifyAll(cs)
        ensures PureState(k)
      {
        var c :| c in cs && !Drops(c) && k == Simplify(c);
        SimplifyStaysPure(c);
      }
  }

  lemma {:induction false} SettledMeans(s: State, v: Valuation)
    requires PureState(s) && Drops(s) && Settled(s)
    ensures CanHold(s, v) <==> DroppedTruth(s)
    decreases s
  {
    match s
    case Basic(_) =>
      assert [] in Paths(s) && Executes([], BLANK, v);
    case Chain(base, curr) =>
      SettledMeans(base, v);
      SettledMeans(curr, v);
      CanHoldChain(base, curr, v);
    case Choice(cs) =>
      CanHoldChoice(cs, v);
      KeptComeFromAlternatives(cs);
      var kept := SimplifyAll(cs);
      if Complementary(kept) {
        var k := if Executes(kept[0].data, BLANK, v) then kept[0] else kept[1];
        ComplementaryCovers(kept, v);
        assert k in kept;
        var c :| c in cs && !Drops(c) && k == Simplify(c);
        FaithfulMeans(c, v);
        assert k.data in Paths(k);
      } else {
        KeptAreNonEmpty(cs);
        if kept != [] {
          assert kept[0] in kept;
          assert !AllEmpty(kept);
          assert false;
        }
        forall c | c in cs
          ensures CanHold(c, v) <==> DroppedTruth(c)
        {
          SettledMeans(c, v);
        }
      }
  }

  lemma SingletonExecutes(p: seq<Predicate>, m: Mem, v: Valuation)
    requires |p| == 1
    ensures Executes(p, m, v) <==> p[0].kind == INVARIANT || Holds(p[0].action, m, v)
  {
    assert p[1..] == [];
    assert Run(p[1..], After(p[0].action, m, v), v).Some?;
  }

  lemma ComplementaryCovers(kept: seq<State>, v: Valuation)
    requires Complementary(kept)
    ensures Executes(kept[0].data, BLANK, v) || Executes(kept[1].data, BLANK, v)
  {
    SingletonExecutes(kept[0].data, BLANK, v);
    SingletonExecutes(kept[1].data, BLANK, v);
    assert BoolValue(BoolLit(true), BLANK, v) && !BoolValue(BoolLit(false), BLANK, v);
  }

  /** On a faithful path condition the simplifier changes nothing but the shape. */
  lemma {:induction false} FaithfulMeans(s: State, v: Valuation)
    requires PureState(s) && Faithful(s)
    ensures CanHold(Simplify(s), v) <==> CanHold(s, v)
    decreases s
  {
    match s
    case Basic(_) =>
    case Chain(base, curr) =>
      CanHoldChain(base, curr, v);
      if Drops(curr) {
        SettledMeans(curr, v);
        FaithfulMeans(base, v);
      } else if Drops(base) {
        SettledMeans(base, v);
        FaithfulMeans(curr, v);
      } else {
        FaithfulMeans(base, v);
        FaithfulMeans(curr, v);
        SimplifyStaysPure(base);
        SimplifyStaysPure(curr);
        CanHoldChain(Simplify(base), Simplify(curr), v);
      }
    case Choice(cs) =>
      var kept := SimplifyAll(cs);
      CanHoldChoice(cs, v);
      CanHoldChoice(kept, v);
      KeptComeFromAlternatives(cs);
      forall c | c in cs
        ensures if Drops(c) then !CanHold(c, v) else (CanHold(Simplify(c), v) <==> CanHold(c, v))
      {
        if Drops(c) { SettledMeans(c, v); } else { FaithfulMeans(c, v); }
      }
      if |kept| == 1 {
        assert kept == [kept[0]];
      }
  }

  // ---------- one step of simplification, exactly ----------

  /** An alternative whose simplification is understood: it is dropped and its meaning is
    * known, or it is kept and keeps its meaning. */
  predicate Understood(s: State) {
    PureState(s) && if Drops(s) then Settled(s) else Faithful(s)
  }

  /** Simplifying a choice of such alternatives keeps its meaning exactly if no complementary
    * pair is collapsed, and either no dropped alternative is true or a kept one is. */
  lemma SimplifyChoiceKeepsTruthIff(cs: seq<State>, v: Valuation)
    requires forall c | c in cs :: Understood(c)
    ensures (CanHold(Simplify(Choice(cs)), v) <==> CanHold(Choice(cs), v)) <==>
      (&& !Complementary(SimplifyAll(cs))
       && ((forall c | c in cs && Drops(c) :: !DroppedTruth(c)) || exists c :: c in cs && !Drops(c) && CanHold(c, v)))
  {
    var kept := SimplifyAll(cs);
    CanHoldChoice(cs, v);
    CanHoldChoice(kept, v);
    CanHoldChoice([], v);
    KeptComeFromAlternatives(cs);
    forall c | c in cs
      ensures if Drops(c) then (CanHold(c, v) <==> DroppedTruth(c)) else (CanHold(Simplify(c), v) <==> CanHold(c, v))
    {
      if Drops(c) { SettledMeans(c, v); } else { FaithfulMeans(c, v); }
    }
    if Complementary(kept) {
      ComplementaryHolds(kept, v);
    }
    if |kept| == 1 {
      assert kept == [kept[0]];
    }
  }

  lemma ComplementaryHolds(kept: seq<State>, v: Valuation)
    requires Complementary(kept)
    ensures exists k :: k in kept && CanHold(k, v)
  {
    ComplementaryCovers(kept, v);
    var k := if Executes(kept[0].data, BLANK, v) then kept[0] else kept[1];
    assert k in kept && k.data in Paths(k);
  }

  /** Simplifying a chain keeps its meaning exactly if the dropped part is true, or the kept
    * one is false. Where both parts are dropped, what is left is the simplified base. */
  lemma SimplifyChainKeepsTruthIff(base: State, curr: State, v: Valuation)
    requires Understood(base) && Understood(curr)
    ensures (CanHold(Simplify(Chain(base, curr)), v) <==> CanHold(Chain(base, curr), v)) <==>
      if Drops(base) && Drops(curr) then
        HasEmptyPath(Simplify(base)) <==> DroppedTruth(base) && DroppedTruth(curr)
      else
        && (Drops(curr) ==> DroppedTruth(curr) || !CanHold(base, v))
        && (Drops(base) ==> DroppedTruth(base) || !CanHold(curr, v))
  {
    CanHoldChain(base, curr, v);
    if Drops(base) && Drops(curr) {
      SettledMeans(base, v);
      SettledMeans(curr, v);
      EmptyHolds(Simplify(base), v);
    } else if Drops(curr) {
      SettledMeans(curr, v);
      FaithfulMeans(base, v);
    } else if Drops(base) {
      SettledMeans(base, v);
      FaithfulMeans(curr, v);
    } else {
      FaithfulMeans(base, v);
      FaithfulMeans(curr, v);
      SimplifyStaysPure(base);
      SimplifyStaysPure(curr);
      CanHoldChain(Simplify(base), Simplify(curr), v);
    }
  }

  // ---------- simplification of a whole tree, exactly ----------

  /** Simplification keeps the truth of the state and of every state inside it. */
  ghost predicate KeepsTruthThroughout(s: State, v: Valuation) {
    && (CanHold(Simplify(s), v) <==> CanHold(s, v))
    && match s
       case Basic(_) => true
       case Chain(base, curr) => KeepsTruthThroughout(base, v) && KeepsTruthThroughout(curr, v)
       case Choice(cs) => forall c | c in cs :: KeepsTruthThroughout(c, v)
  }

  /** Every chain drops only a side that is left as something true, or that stands beside
    * something false; no choice collapses, and it drops nothing true unless something true
    * is kept. */
  ghost predicate StepsKeepTruth(s: State, v: Valuation) {
    match s
    case Basic(_) => true
    case Chain(base, curr) =>
      && StepsKeepTruth(base, v) && StepsKeepTruth(curr, v)
      && (if Drops(curr) then HasEmptyPath(Simplify(curr)) || !CanHold(base, v)
          else if Drops(base) then HasEmptyPath(Simplify(base)) || !CanHold(curr, v)
          else true)
    case Choice(cs) =>
      && (forall c | c in cs :: StepsKeepTruth(c, v))
      && !Complementary(SimplifyAll(cs))
      && ((forall c | c in cs && Drops(c) :: !HasEmptyPath(Simplify(c)))
          || exists c :: c in cs && !Drops(c) && CanHold(c, v))
  }

  /** An empty state holds, in any valuation, exactly if it has a path. */
  lemma EmptyHolds(s: State, v: Valuation)
    requires IsEmpty(s)
    ensures CanHold(s, v) <==> HasEmptyPath(s)
  {
    EmptyPaths(s);
    EmptyPathMeans(s);
    assert Executes([], BLANK, v);
  }

  /** Simplification of a path condition keeps its truth at every node of the tree exactly if
    * every one of its steps meets its own condition. */
  lemma {:induction false} SimplifyKeepsTruthThroughoutIff(s: State, v: Valuation)
    requires PureState(s)
    ensures KeepsTruthThroughout(s, v) <==> StepsKeepTruth(s, v)
    decreases s
  {
    match s
    case Basic(_) =>
    case Chain(base, curr) =>
      SimplifyKeepsTruthThroughoutIff(base, v);
      SimplifyKeepsTruthThroughoutIff(curr, v);
      if KeepsTruthThroughout(base, v) && KeepsTruthThroughout(curr, v) {
        ChainStepKeepsTruthIff(base, curr, v);
      }
    case Choice(cs) =>
      forall c | c in cs ensures KeepsTruthThroughout(c, v) <==> StepsKeepTruth(c, v) {
        SimplifyKeepsTruthThroughoutIff(c, v);
      }
      if forall c | c in cs :: KeepsTruthThroughout(c, v) {
        ChoiceStepKeepsTruthIff(cs, v);
      }
  }

  lemma ChainStepKeepsTruthIff(base: State, curr: State, v: Valuation)
    requires PureState(base) && PureState(curr)
    requires CanHold(Simplify(base), v) <==> CanHold(base, v)
    requires CanHold(Simplify(curr), v) <==> CanHold(curr, v)
    ensures (CanHold(Simplify(Chain(base, curr)), v) <==> CanHold(Chain(base, curr), v)) <==>
      (if Drops(curr) then HasEmptyPath(Simplify(curr)) || !CanHold(base, v)
       else if Drops(base) then HasEmptyPath(Simplify(base)) || !CanHold(curr, v)
       else true)
  {
    CanHoldChain(base, curr, v);
    if Drops(curr) {
      EmptyHolds(Simplify(curr), v);
    } else if Drops(base) {
      EmptyHolds(Simplify(base), v);
    } else {
      SimplifyStaysPure(base);
      SimplifyStaysPure(curr);
      CanHoldChain(Simplify(base), Simplify(curr), v);
    }
  }

  lemma ChoiceStepKeepsTruthIff(cs: seq<State>, v: Valuation)
    requires forall c | c in cs :: CanHold(Simplify(c), v) <==> CanHold(c, v)
    ensures (CanHold(Simplify(Choice(cs)), v) <==> CanHold(Choice(cs), v)) <==>
      (&& !Complementary(SimplifyAll(cs))
       && ((forall c | c in cs && Drops(c) :: !HasEmptyPath(Simplify(c)))
           || exists c :: c in cs && !Drops(c) && CanHold(c, v)))
  {
    var kept := SimplifyAll(cs);
    CanHoldChoice(cs, v);
    CanHoldChoice(kept, v);
    CanHoldChoice([], v);
    KeptComeFromAlternatives(cs);
    forall c | c in cs && Drops(c) ensures CanHold(c, v) <==> HasEmptyPath(Simplify(c)) {
      EmptyHolds(Simplify(c), v);
    }
    if Complementary(kept) {
      ComplementaryHolds(kept, v);
    } else if |kept| == 1 {
      assert kept == [kept[0]];
    }
  }
}
