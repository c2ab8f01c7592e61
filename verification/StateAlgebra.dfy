/** Laws of the structural operations, stated over the set of paths of a state. */
module StateAlgebra {
  import opened PredicateStates

  // ---------- filtering ----------

  ghost function KeepEach(ps: set<seq<Predicate>>, kinds: set<PredicateType>): set<seq<Predicate>> {
    set p | p in ps :: KeepKinds(p, kinds)
  }

  ghost function DropEach(ps: set<seq<Predicate>>, kinds: set<PredicateType>): set<seq<Predicate>> {
    set p | p in ps :: DropKinds(p, kinds)
  }

  ghost function ReverseEach(ps: set<seq<Predicate>>): set<seq<Predicate>> {
    set p | p in ps :: ReverseSeq(p)
  }

  lemma {:induction false} KeepConcat(p: seq<Predicate>, q: seq<Predicate>, kinds: set<PredicateType>)
    ensures KeepKinds(p + q, kinds) == KeepKinds(p, kinds) + KeepKinds(q, kinds)
  {
    if p == [] {
      assert p + q == q;
    } else {
      assert (p + q)[0] == p[0] && (p + q)[1..] == p[1..] + q;
      KeepConcat(p[1..], q, kinds);
    }
  }

  lemma {:induction false} DropConcat(p: seq<Predicate>, q: seq<Predicate>, kinds: set<PredicateType>)
    ensures DropKinds(p + q, kinds) == DropKinds(p, kinds) + DropKinds(q, kinds)
  {
    if p == [] {
      assert p + q == q;
    } else {
      assert (p + q)[0] == p[0] && (p + q)[1..] == p[1..] + q;
      DropConcat(p[1..], q, kinds);
    }
  }

  lemma {:induction false} ReverseConcat<T>(p: seq<T>, q: seq<T>)
    ensures ReverseSeq(p + q) == ReverseSeq(q) + ReverseSeq(p)
  {
    if p == [] {
      assert p + q == q;
    } else {
      assert (p + q)[0] == p[0] && (p + q)[1..] == p[1..] + q;
      ReverseConcat(p[1..], q);
    }
  }

  /** Filtering a state filters each of its paths. */
  lemma {:induction false} FilterIsPathwise(s: State, kinds: set<PredicateType>)
    ensures Paths(FilterByTypes(s, kinds)) == KeepEach(Paths(s), kinds)
    decreases s, 1
  {
    match s
    case Basic(_) =>
    case Chain(base, curr) =>
      FilterIsPathwise(base, kinds);
      FilterIsPathwise(curr, kinds);
      KeepEachConcat(Paths(base), Paths(curr), kinds);
    case Choice(cs) =>
      FilterAllIsPathwise(cs, kinds);
  }

  lemma {:induction false} FilterAllIsPathwise(cs: seq<State>, kinds: set<PredicateType>)
    ensures AllPaths(FilterAll(cs, kinds)) == KeepEach(AllPaths(cs), kinds)
    decreases cs, 0
  {
    if cs != [] {
      FilterIsPathwise(cs[0], kinds);
      FilterAllIsPathwise(cs[1..], kinds);
    }
  }

  lemma KeepEachConcat(a: set<seq<Predicate>>, b: set<seq<Predicate>>, kinds: set<PredicateType>)
    ensures KeepEach(Concat(a, b), kinds) == Concat(KeepEach(a, kinds), KeepEach(b, kinds))
  {
    forall p, q | p in a && q in b
      ensures KeepKinds(Join(p, q), kinds) == Join(KeepKinds(p, kinds), KeepKinds(q, kinds))
    {
      KeepConcat(p, q, kinds);
    }
    forall r | r in Concat(KeepEach(a, kinds), KeepEach(b, kinds))
      ensures r in KeepEach(Concat(a, b), kinds)
    {
      var x, y :| x in KeepEach(a, kinds) && y in KeepEach(b, kinds) && r == Join(x, y);
      var p :| p in a && x == KeepKinds(p, kinds);
      var q :| q in b && y == KeepKinds(q, kinds);
      assert Join(p, q) in Concat(a, b);
    }
  }

  lemma DropEachConcat(a: set<seq<Predicate>>, b: set<seq<Predicate>>, kinds: set<PredicateType>)
    ensures DropEach(Concat(a, b), kinds) == Concat(DropEach(a, kinds), DropEach(b, kinds))
  {
    forall p, q | p in a && q in b
      ensures DropKinds(Join(p, q), kinds) == Join(DropKinds(p, kinds), DropKinds(q, kinds))
    {
      DropConcat(p, q, kinds);
    }
    forall r | r in Concat(DropEach(a, kinds), DropEach(b, kinds))
      ensures r in DropEach(Concat(a, b), kinds)
    {
      var x, y :| x in DropEach(a, kinds) && y in DropEach(b, kinds) && r == Join(x, y);
      var p :| p in a && x == DropKinds(p, kinds);
      var q :| q in b && y == DropKinds(q, kinds);
      assert Join(p, q) in Concat(a, b);
    }
  }

  // ---------- splitting ----------

  lemma {:induction false} SplitSizes(data: seq<Predicate>, kinds: set<PredicateType>)
    ensures |KeepKinds(data, kinds)| + |DropKinds(data, kinds)| == |data|
    ensures multiset(KeepKinds(data, kinds)) + multiset(DropKinds(data, kinds)) == multiset(data)
  {
    if data != [] {
      SplitSizes(data[1..], kinds);
      assert data == [data[0]] + data[1..];
    }
  }

  /** The first half of a split is the filter, the second half drops pathwise what the first
    * half keeps, and no predicate is lost. */
  lemma {:induction false} SplitIsFilterAndRest(s: State, kinds: set<PredicateType>)
    ensures SplitByTypes(s, kinds).0 == FilterByTypes(s, kinds)
    ensures Paths(SplitByTypes(s, kinds).1) == DropEach(Paths(s), kinds)
    ensures Size(SplitByTypes(s, kinds).0) + Size(SplitByTypes(s, kinds).1) == Size(s)
    decreases s, 1
  {
    match s
    case Basic(data) =>
      SplitSizes(data, kinds);
    case Chain(base, curr) =>
      SplitIsFilterAndRest(base, kinds);
      SplitIsFilterAndRest(curr, kinds);
      DropEachConcat(Paths(base), Paths(curr), kinds);
    case Choice(cs) =>
      SplitAllIsFilterAndRest(cs, kinds);
  }

  lemma {:induction false} SplitAllIsFilterAndRest(cs: seq<State>, kinds: set<PredicateType>)
    ensures SplitAll(cs, kinds).0 == FilterAll(cs, kinds)
    ensures AllPaths(SplitAll(cs, kinds).1) == DropEach(AllPaths(cs), kinds)
    ensures TotalSize(SplitAll(cs, kinds).0) + TotalSize(SplitAll(cs, kinds).1) == TotalSize(cs)
    decreases cs, 0
  {
    if cs != [] {
      SplitIsFilterAndRest(cs[0], kinds);
      SplitAllIsFilterAndRest(cs[1..], kinds);
    }
  }

  // ---------- reversing ----------

  /** Reversing a state reverses each of its paths; twice is the identity. */
  lemma {:induction false} ReverseIsPathwise(s: State)
    ensures Paths(Reverse(s)) == ReverseEach(Paths(s))
    ensures Reverse(Reverse(s)) == s
    decreases s, 1
  {
    match s
    case Basic(data) =>
      ReverseTwice(data);
    case Chain(base, curr) =>
      ReverseIsPathwise(base);
      ReverseIsPathwise(curr);
      ReverseEachConcat(Paths(base), Paths(curr));
    case Choice(cs) =>
      ReverseAllIsPathwise(cs);
  }

  lemma {:induction false} ReverseAllIsPathwise(cs: seq<State>)
    ensures AllPaths(ReverseAll(cs)) == ReverseEach(AllPaths(cs))
    ensures ReverseAll(ReverseAll(cs)) == cs
    decreases cs, 0
  {
    if cs != [] {
      ReverseIsPathwise(cs[0]);
      ReverseAllIsPathwise(cs[1..]);
    }
  }

  lemma {:induction false} ReverseTwice<T>(s: seq<T>)
    ensures ReverseSeq(ReverseSeq(s)) == s
  {
    if s != [] {
      ReverseConcat(ReverseSeq(s[1..]), [s[0]]);
      ReverseTwice(s[1..]);
    }
  }

  lemma ReverseEachConcat(a: set<seq<Predicate>>, b: set<seq<Predicate>>)
    ensures ReverseEach(Concat(a, b)) == Concat(ReverseEach(b), ReverseEach(a))
  {
    forall p, q | p in a && q in b
      ensures ReverseSeq(Join(p, q)) == Join(ReverseSeq(q), ReverseSeq(p))
    {
      ReverseConcat(p, q);
    }
    forall r | r in Concat(ReverseEach(b), ReverseEach(a))
      ensures r in ReverseEach(Concat(a, b))
    {
      var y, x :| y in ReverseEach(b) && x in ReverseEach(a) && r == Join(y, x);
      var q :| q in b && y == ReverseSeq(q);
      var p :| p in a && x == ReverseSeq(p);
      assert Join(p, q) in Concat(a, b);
    }
  }

  // ---------- slicing ----------

  lemma ConcatLaws<T(!new)>(a: set<seq<T>>, b: set<seq<T>>, c: set<seq<T>>)
    ensures Concat(Concat(a, b), c) == Concat(a, Concat(b, c))
    ensures Concat(a, b + c) == Concat(a, b) + Concat(a, c)
  {
    ConcatToRight(a, b, c);
    ConcatToLeft(a, b, c);
  }

  lemma ConcatToRight<T(!new)>(a: set<seq<T>>, b: set<seq<T>>, c: set<seq<T>>)
    ensures Concat(Concat(a, b), c) <= Concat(a, Concat(b, c))
  {
    forall r | r in Concat(Concat(a, b), c)
      ensures r in Concat(a, Concat(b, c))
    {
      var pq, z := PartsOfConcat(Concat(a, b), c, r);
      var x, y := PartsOfConcat(a, b, pq);
      JoinInConcat(b, c, y, z);
      JoinInConcat(a, Concat(b, c), x, Join(y, z));
      JoinAssociates(x, y, z);
    }
  }

  lemma JoinInConcat<T(!new)>(a: set<seq<T>>, b: set<seq<T>>, p: seq<T>, q: seq<T>)
    requires p in a && q in b
    ensures Join(p, q) in Concat(a, b)
  {
  }

  lemma JoinAssociates<T>(x: seq<T>, y: seq<T>, z: seq<T>)
    ensures Join(Join(x, y), z) == Join(x, Join(y, z))
  {
  }

  lemma PartsOfConcat<T(!new)>(a: set<seq<T>>, b: set<seq<T>>, r: seq<T>) returns (p: seq<T>, q: seq<T>)
    requires r in Concat(a, b)
    ensures p in a && q in b && r == Join(p, q)
  {
    p, q :| p in a && q in b && r == Join(p, q);
  }

  lemma ConcatToLeft<T(!new)>(a: set<seq<T>>, b: set<seq<T>>, c: set<seq<T>>)
    ensures Concat(a, Concat(b, c)) <= Concat(Concat(a, b), c)
  {
    forall r | r in Concat(a, Concat(b, c))
      ensures r in Concat(Concat(a, b), c)
    {
      var x, qr := PartsOfConcat(a, Concat(b, c), r);
      var y, z := PartsOfConcat(b, c, qr);
      JoinInConcat(a, b, x, y);
      JoinInConcat(Concat(a, b), c, Join(x, y), z);
      JoinAssociates(x, y, z);
    }
  }

  /** A slice is what follows the prefix: the paths of the state are exactly the paths of
    * the prefix continued by the paths of the slice. */
  lemma {:induction false} SliceContinuesPrefix(s: State, on: State)
    ensures SliceOn(s, on).Some? ==> Paths(s) == Concat(Paths(on), Paths(SliceOn(s, on).value))
    decreases s, 1
  {
    match s
    case Basic(data) =>
      if SliceOn(s, on).Some? {
        assert on.Basic? && data == on.data + SliceOn(s, on).value.data;
      }
    case Chain(base, curr) =>
      if base != on && SliceOn(base, on).Some? {
        SliceContinuesPrefix(base, on);
        ConcatLaws(Paths(on), Paths(SliceOn(base, on).value), Paths(curr));
      }
    case Choice(cs) =>
      SliceAllContinuesPrefix(cs, on);
  }

  lemma {:induction false} SliceAllContinuesPrefix(cs: seq<State>, on: State)
    ensures SliceAll(cs, on).Some? ==> AllPaths(cs) == Concat(Paths(on), AllPaths(SliceAll(cs, on).value))
    decreases cs, 0
  {
    if cs != [] && SliceAll(cs, on).Some? {
      SliceContinuesPrefix(cs[0], on);
      SliceAllContinuesPrefix(cs[1..], on);
      var rs := SliceAll(cs, on).value;
      assert rs[0] == SliceOn(cs[0], on).value && rs[1..] == SliceAll(cs[1..], on).value;
      ConcatLaws(Paths(on), Paths(rs[0]), AllPaths(rs[1..]));
    }
  }

  // ---------- membership in a choice ----------

  lemma {:induction false} PathOfSomeAlternative(cs: seq<State>, p: seq<Predicate>)
    ensures p in AllPaths(cs) <==> exists i :: 0 <= i < |cs| && p in Paths(cs[i])
    decreases |cs|
  {
    if cs != [] {
      PathOfSomeAlternative(cs[1..], p);
      if p in AllPaths(cs[1..]) {
        var i :| 0 <= i < |cs[1..]| && p in Paths(cs[1..][i]);
        assert p in Paths(cs[i + 1]);
      }
      forall i | 0 <= i < |cs| && p in Paths(cs[i])
        ensures p in AllPaths(cs)
      {
        assert i > 0 ==> cs[1..][i - 1] == cs[i];
      }
    }
  }

  // ---------- simplifying ----------

  /** Somewhere in `s`, the simplifier replaces a complementary pair by a choice of nothing. */
  predicate Collapses(s: State)
    decreases s, 1
  {
    match s
    case Basic(_) => false
    case Chain(base, curr) => Collapses(base) || Collapses(curr)
    case Choice(cs) => SomeCollapses(cs) || Complementary(SimplifyAll(cs))
  }

  predicate SomeCollapses(cs: seq<State>)
    decreases cs, 0
  {
    cs != [] && (Collapses(cs[0]) || SomeCollapses(cs[1..]))
  }

  /** Simplifying never adds a predicate, and keeps every predicate exactly when no
    * complementary pair collapses; emptiness is kept too then. */
  lemma {:induction false} SimplifyKeepsSize(s: State)
    ensures Size(Simplify(s)) <= Size(s)
    ensures Size(Simplify(s)) == Size(s) <==> !Collapses(s)
    ensures IsEmpty(s) ==> IsEmpty(Simplify(s))
    ensures !Collapses(s) ==> (IsEmpty(Simplify(s)) <==> IsEmpty(s))
    decreases s, 1
  {
    match s
    case Basic(_) =>
    case Chain(base, curr) =>
      SimplifyKeepsSize(base);
      SimplifyKeepsSize(curr);
      EmptyMeansNoPredicate(Simplify(base));
      EmptyMeansNoPredicate(Simplify(curr));
      EmptyMeansNoPredicate(base);
      EmptyMeansNoPredicate(curr);
    case Choice(cs) =>
      SimplifyAllKeepsSize(cs);
      var kept := SimplifyAll(cs);
      if Complementary(kept) {
        assert kept == [kept[0], kept[1]];
        assert TotalSize(kept[1..]) == 1;
        assert TotalSize(kept) == 2;
      } else if |kept| == 1 {
        assert kept == [kept[0]] && kept[1..] == [];
      }
      EmptyMeansNoPredicate(s);
      EmptyMeansNoPredicate(Simplify(s));
  }

  lemma {:induction false} SimplifyAllKeepsSize(cs: seq<State>)
    ensures TotalSize(SimplifyAll(cs)) <= TotalSize(cs)
    ensures TotalSize(SimplifyAll(cs)) == TotalSize(cs) <==> !SomeCollapses(cs)
    decreases cs, 0
  {
    if cs != [] {
      SimplifyKeepsSize(cs[0]);
      EmptyMeansNoPredicate(Simplify(cs[0]));
      SimplifyAllKeepsSize(cs[1..]);
    }
  }

  lemma {:induction false} EmptyMeansNoPredicate(s: State)
    ensures IsEmpty(s) <==> Size(s) == 0
    decreases s, 1
  {
    match s
    case Basic(_) =>
    case Chain(base, curr) =>
      EmptyMeansNoPredicate(base);
      EmptyMeansNoPredicate(curr);
    case Choice(cs) =>
      AllEmptyMeansNoPredicate(cs);
  }

  lemma {:induction false} AllEmptyMeansNoPredicate(cs: seq<State>)
    ensures AllEmpty(cs) <==> TotalSize(cs) == 0
    decreases cs, 0
  {
    if cs != [] {
      EmptyMeansNoPredicate(cs[0]);
      AllEmptyMeansNoPredicate(cs[1..]);
    }
  }

  /** A simplified state that is empty is one of two: no predicates, or no alternatives. */
  lemma {:induction false} SimplifiedEmpty(s: State)
    requires IsEmpty(Simplify(s))
    ensures Simplify(s) == Basic([]) || Simplify(s) == Choice([])
    decreases s
  {
    match s
    case Basic(_) =>
    case Chain(base, curr) =>
      if IsEmpty(Simplify(curr)) {
        SimplifiedEmpty(base);
      }
    case Choice(cs) =>
      KeptAreNonEmpty(cs);
      var kept := SimplifyAll(cs);
      if kept != [] {
        assert kept[0] in kept;
      }
  }

  lemma {:induction false} KeptAreNonEmpty(cs: seq<State>)
    ensures forall k | k in SimplifyAll(cs) :: !IsEmpty(k)
  {
    if cs != [] {
      KeptAreNonEmpty(cs[1..]);
    }
  }

  /** A simplified state that is not empty has paths, none of them empty. */
  lemma {:induction false} SimplifiedNonEmpty(s: State)
    requires !IsEmpty(Simplify(s))
    ensures Paths(Simplify(s)) != {} && [] !in Paths(Simplify(s))
    decreases s, 1
  {
    match s
    case Basic(_) =>
    case Chain(base, curr) =>
      if !IsEmpty(Simplify(curr)) && !IsEmpty(Simplify(base)) {
        SimplifiedNonEmpty(base);
        SimplifiedNonEmpty(curr);
        var p :| p in Paths(Simplify(base));
        var q :| q in Paths(Simplify(curr));
        assert p + q in Paths(Simplify(s));
      } else if !IsEmpty(Simplify(base)) {
        SimplifiedNonEmpty(base);
      } else {
        SimplifiedNonEmpty(curr);
      }
    case Choice(cs) =>
      KeptHavePaths(cs);
      var kept := SimplifyAll(cs);
      assert |kept| > 0;
      assert |kept| == 1 ==> kept == [kept[0]] && kept[1..] == [];
  }

  lemma {:induction false} KeptHavePaths(cs: seq<State>)
    ensures [] !in AllPaths(SimplifyAll(cs))
    ensures SimplifyAll(cs) != [] ==> AllPaths(SimplifyAll(cs)) != {}
    decreases cs, 0
  {
    if cs != [] {
      KeptHavePaths(cs[1..]);
      if !IsEmpty(Simplify(cs[0])) {
        SimplifiedNonEmpty(cs[0]);
        assert SimplifyAll(cs)[0] == Simplify(cs[0]) && SimplifyAll(cs)[1..] == SimplifyAll(cs[1..]);
      }
    }
  }

  /** Simplifying keeps the path set of every alternative. */
  ghost predicate EachKeepsPaths(cs: seq<State>) {
    forall c | c in cs :: Paths(Simplify(c)) == Paths(c)
  }

  /** One simplification step of a choice keeps the path set exactly when the kept
    * alternatives are not a complementary pair and no alternative has the empty path. */
  lemma {:induction false} SimplifyChoiceKeepsPathsIff(cs: seq<State>)
    requires EachKeepsPaths(cs)
    ensures Paths(Simplify(Choice(cs))) == Paths(Choice(cs))
      <==> !Complementary(SimplifyAll(cs)) && [] !in AllPaths(cs)
  {
    var kept := SimplifyAll(cs);
    KeptPaths(cs);
    KeptHavePaths(cs);
    if Complementary(kept) {
      assert AllPaths(kept) != {};
    } else if |kept| == 1 {
      assert kept == [kept[0]] && kept[1..] == [];
    }
  }

  lemma {:induction false} KeptPaths(cs: seq<State>)
    requires EachKeepsPaths(cs)
    ensures AllPaths(SimplifyAll(cs)) == AllPaths(cs) - {[]}
    decreases cs
  {
    if cs != [] {
      assert forall c | c in cs[1..] :: c in cs;
      KeptPaths(cs[1..]);
      assert Paths(Simplify(cs[0])) == Paths(cs[0]);
      if IsEmpty(Simplify(cs[0])) {
        SimplifiedEmpty(cs[0]);
      } else {
        SimplifiedNonEmpty(cs[0]);
        assert SimplifyAll(cs)[0] == Simplify(cs[0]) && SimplifyAll(cs)[1..] == SimplifyAll(cs[1..]);
      }
    }
  }

  /** One simplification step of a chain keeps the path set exactly when the side it drops
    * has the empty path, or the other side has no path anyway. */
  lemma SimplifyChainKeepsPathsIff(base: State, curr: State)
    requires Paths(Simplify(base)) == Paths(base) && Paths(Simplify(curr)) == Paths(curr)
    ensures Paths(Simplify(Chain(base, curr))) == Paths(Chain(base, curr))
      <==> (if IsEmpty(Simplify(curr)) then [] in Paths(curr) || Paths(base) == {}
            else if IsEmpty(Simplify(base)) then [] in Paths(base) || Paths(curr) == {}
            else true)
  {
    if IsEmpty(Simplify(curr)) {
      assert Simplify(Chain(base, curr)) == Simplify(base);
      EmptyPaths(Simplify(curr));
      ConcatVoidIff(Paths(base), Paths(curr));
    } else if IsEmpty(Simplify(base)) {
      assert Simplify(Chain(base, curr)) == Simplify(curr);
      EmptyPaths(Simplify(base));
      ConcatVoidIff(Paths(curr), Paths(base));
    } else {
      assert Simplify(Chain(base, curr)) == Chain(Simplify(base), Simplify(curr));
    }
  }

  /** Some path of the state has no predicates. */
  predicate HasEmptyPath(s: State) {
    match s
    case Basic(data) => data == []
    case Chain(base, curr) => HasEmptyPath(base) && HasEmptyPath(curr)
    case Choice(cs) => exists c | c in cs :: HasEmptyPath(c)
  }

  /** The state has no path at all. */
  predicate HasNoPath(s: State) {
    match s
    case Basic(_) => false
    case Chain(base, curr) => HasNoPath(base) || HasNoPath(curr)
    case Choice(cs) => forall c | c in cs :: HasNoPath(c)
  }

  lemma {:induction false} EmptyPathMeans(s: State)
    ensures HasEmptyPath(s) <==> [] in Paths(s)
    ensures HasNoPath(s) <==> Paths(s) == {}
    decreases s
  {
    match s
    case Basic(_) =>
    case Chain(base, curr) =>
      EmptyPathMeans(base);
      EmptyPathMeans(curr);
      EmptyPathOfConcat(Paths(base), Paths(curr));
    case Choice(cs) =>
      forall c | c in cs ensures (HasEmptyPath(c) <==> [] in Paths(c)) && (HasNoPath(c) <==> Paths(c) == {}) {
        EmptyPathMeans(c);
      }
      forall p ensures p in AllPaths(cs) <==> exists c :: c in cs && p in Paths(c) {
        PathOfSomeAlternative(cs, p);
        forall c | c in cs && p in Paths(c) ensures exists i :: 0 <= i < |cs| && p in Paths(cs[i]) {
          var i :| 0 <= i < |cs| && cs[i] == c;
        }
      }
  }

  lemma EmptyPathOfConcat<T(!new)>(a: set<seq<T>>, b: set<seq<T>>)
    ensures [] in Concat(a, b) <==> [] in a && [] in b
    ensures Concat(a, b) == {} <==> a == {} || b == {}
  {
    if [] in a && [] in b {
      JoinInConcat(a, b, [], []);
    }
    if a != {} && b != {} {
      var p :| p in a;
      var q :| q in b;
      JoinInConcat(a, b, p, q);
    }
  }

  /** Simplification keeps the path set of the state and of every state inside it. */
  ghost predicate KeepsPathsThroughout(s: State) {
    && Paths(Simplify(s)) == Paths(s)
    && match s
       case Basic(_) => true
       case Chain(base, curr) => KeepsPathsThroughout(base) && KeepsPathsThroughout(curr)
       case Choice(cs) => forall c | c in cs :: KeepsPathsThroughout(c)
  }

  /** Every chain drops only a side that has the empty path, or that is put before or after
    * nothing; no choice has the empty path, and none collapses. */
  predicate StepsKeepPaths(s: State) {
    match s
    case Basic(_) => true
    case Chain(base, curr) =>
      && StepsKeepPaths(base) && StepsKeepPaths(curr)
      && (if IsEmpty(Simplify(curr)) then HasEmptyPath(curr) || HasNoPath(base)
          else if IsEmpty(Simplify(base)) then HasEmptyPath(base) || HasNoPath(curr)
          else true)
    case Choice(cs) =>
      && (forall c | c in cs :: StepsKeepPaths(c) && !HasEmptyPath(c))
      && !Complementary(SimplifyAll(cs))
  }

  /** Simplifying a whole tree of states keeps all path sets exactly if every step does. */
  lemma {:induction false} SimplifyKeepsPathsThroughoutIff(s: State)
    ensures KeepsPathsThroughout(s) <==> StepsKeepPaths(s)
    decreases s
  {
    match s
    case Basic(_) =>
    case Chain(base, curr) =>
      SimplifyKeepsPathsThroughoutIff(base);
      SimplifyKeepsPathsThroughoutIff(curr);
      if KeepsPathsThroughout(base) && KeepsPathsThroughout(curr) {
        SimplifyChainKeepsPathsIff(base, curr);
        EmptyPathMeans(base);
        EmptyPathMeans(curr);
      }
    case Choice(cs) =>
      forall c | c in cs ensures KeepsPathsThroughout(c) <==> StepsKeepPaths(c) {
        SimplifyKeepsPathsThroughoutIff(c);
      }
      EmptyPathMeans(s);
      if forall c | c in cs :: KeepsPathsThroughout(c) {
        assert EachKeepsPaths(cs);
        SimplifyChoiceKeepsPathsIff(cs);
      }
  }

  /** No choice is without alternatives, has an empty one, or collapses. */
  predicate PlainState(s: State) {
    match s
    case Basic(_) => true
    case Chain(base, curr) => PlainState(base) && PlainState(curr)
    case Choice(cs) =>
      && cs != [] && !Complementary(SimplifyAll(cs))
      && forall c | c in cs :: PlainState(c) && !IsEmpty(c)
  }

  lemma {:induction false} PlainEmptyPath(s: State)
    requires PlainState(s)
    ensures HasEmptyPath(s) <==> IsEmpty(s)
    ensures IsEmpty(Simplify(s)) <==> IsEmpty(s)
    ensures StepsKeepPaths(s)
    decreases s
  {
    PlainDoesNotCollapse(s);
    SimplifyKeepsSize(s);
    match s
    case Basic(_) =>
    case Chain(base, curr) =>
      PlainEmptyPath(base);
      PlainEmptyPath(curr);
    case Choice(cs) =>
      forall c | c in cs ensures (HasEmptyPath(c) <==> IsEmpty(c)) && StepsKeepPaths(c) {
        PlainEmptyPath(c);
      }
      assert cs[0] in cs && !AllEmpty(cs);
  }

  lemma {:induction false} PlainDoesNotCollapse(s: State)
    requires PlainState(s)
    ensures !Collapses(s)
    decreases s, 1
  {
    match s
    case Basic(_) =>
    case Chain(base, curr) =>
      PlainDoesNotCollapse(base);
      PlainDoesNotCollapse(curr);
    case Choice(cs) => PlainAlternativesDoNotCollapse(cs);
  }

  lemma {:induction false} PlainAlternativesDoNotCollapse(cs: seq<State>)
    requires forall c | c in cs :: PlainState(c)
    ensures !SomeCollapses(cs)
    decreases cs, 0
  {
    if cs != [] {
      PlainDoesNotCollapse(cs[0]);
      PlainAlternativesDoNotCollapse(cs[1..]);
    }
  }

  /** On a plain tree of states, simplification keeps the path set, emptiness and size. */
  lemma SimplifyKeepsPlain(s: State)
    requires PlainState(s)
    ensures Paths(Simplify(s)) == Paths(s)
    ensures IsEmpty(Simplify(s)) <==> IsEmpty(s)
    ensures Size(Simplify(s)) == Size(s)
  {
    PlainEmptyPath(s);
    SimplifyKeepsPathsThroughoutIff(s);
    PlainDoesNotCollapse(s);
    SimplifyKeepsSize(s);
  }

  lemma ConcatUnit<T(!new)>(a: set<seq<T>>)
    ensures Concat(a, {[]}) == a && Concat({[]}, a) == a
  {
    var e: set<seq<T>> := {[]};
    forall p: seq<T>
      ensures p in Concat(a, e) <==> p in a
    {
      if p in a {
        assert p == p + [] && [] in e;
      }
      if p in Concat(a, e) {
        var x, y :| x in a && y in e && p == x + y;
        assert p == x;
      }
    }
    forall p: seq<T>
      ensures p in Concat(e, a) <==> p in a
    {
      if p in a {
        assert p == [] + p && [] in e;
      }
      if p in Concat(e, a) {
        var x, y :| x in e && y in a && p == x + y;
        assert p == y;
      }
    }
  }

  lemma ConcatNone<T(!new)>(a: set<seq<T>>)
    ensures Concat(a, {}) == {} && Concat({}, a) == {}
  {
  }

  /** The languages of empty states: nothing, or the empty path only. */
  ghost predicate Void<T(!new)>(e: set<seq<T>>) {
    e == {} || e == {[]}
  }

  lemma ConcatVoidIff<T(!new)>(a: set<seq<T>>, e: set<seq<T>>)
    requires Void(e)
    ensures Concat(a, e) == a <==> [] in e || a == {}
    ensures Concat(e, a) == a <==> [] in e || a == {}
    ensures Void(a) ==> Void(Concat(a, e))
  {
    if e == {} {
      ConcatNone(a);
    } else {
      ConcatUnit(a);
    }
  }

  /** The factory's chain drops an empty side without looking further: paths are kept
    * exactly when the dropped side has the empty path or the other side has none. */
  lemma {:induction false} MakeChainKeepsPathsIff(base: State, curr: State)
    ensures Paths(MakeChain(base, curr)) == Paths(Chain(base, curr))
      <==> (if IsEmpty(base) then [] in Paths(base) || Paths(curr) == {}
            else if IsEmpty(curr) then [] in Paths(curr) || Paths(base) == {}
            else true)
  {
    if IsEmpty(base) {
      EmptyPaths(base);
      ConcatVoidIff(Paths(curr), Paths(base));
    } else if IsEmpty(curr) {
      EmptyPaths(curr);
      ConcatVoidIff(Paths(base), Paths(curr));
    }
  }

  lemma {:induction false} EmptyPaths(s: State)
    requires IsEmpty(s)
    ensures Void(Paths(s))
    decreases s, 1
  {
    match s
    case Basic(_) =>
    case Chain(base, curr) =>
      EmptyPaths(base);
      EmptyPaths(curr);
      ConcatVoidIff(Paths(base), Paths(curr));
    case Choice(cs) =>
      AllEmptyPaths(cs);
  }

  lemma {:induction false} AllEmptyPaths(cs: seq<State>)
    requires AllEmpty(cs)
    ensures Void(AllPaths(cs))
    decreases cs, 0
  {
    if cs != [] {
      EmptyPaths(cs[0]);
      AllEmptyPaths(cs[1..]);
    }
  }

  /** The factory's choice of one alternative is that alternative: paths are always kept. */
  lemma MakeChoiceKeepsPaths(cs: seq<State>)
    ensures Paths(MakeChoice(cs)) == Paths(Choice(cs))
  {
    if |cs| == 1 {
      assert AllPaths(cs[1..]) == {};
    }
  }
}
