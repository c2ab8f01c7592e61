/** The three representations of symbolic arrays, under a fixed valuation: arrays of the
  * theory, uninterpreted functions defined by axioms, and closures. */
module MemArrays {
  import opened SmtLogic

  /** How an array came about.  Indices, elements and guards are given by their values. */
  datatype History =
    | Start
    | Write(base: History, ix: int, elem: int)
    | WriteAll(base: History, entries: seq<(int, int)>)
    | Join(default: History, branches: seq<Branch>)

  datatype Branch = Branch(guard: bool, arr: History)

  // ---------- switch_ ----------

  /** A left fold of if-then-else over the cases of an index. */
  function SwitchIndex(j: int, cases: seq<(int, int)>, default: int): int
    decreases |cases|
  {
    if cases == [] then default
    else
      var n := |cases| - 1;
      if j == cases[n].0 then cases[n].1 else SwitchIndex(j, cases[..n], default)
  }

  /** A left fold of if-then-else over guarded cases. */
  function SwitchGuard<T>(guards: seq<bool>, vals: seq<T>, default: T): T
    requires |guards| == |vals|
    decreases |guards|
  {
    if guards == [] then default
    else
      var n := |guards| - 1;
      if guards[n] then vals[n] else SwitchGuard(guards[..n], vals[..n], default)
  }

  /** The position of the last true guard, if there is one. */
  ghost predicate LastTrue(guards: seq<bool>, k: int) {
    0 <= k < |guards| && guards[k] && forall i | k < i < |guards| :: !guards[i]
  }

  ghost predicate LastAt(j: int, cases: seq<(int, int)>, k: int) {
    0 <= k < |cases| && cases[k].0 == j && forall i | k < i < |cases| :: cases[i].0 != j
  }

  /** The last case of the index wins; without one it is the default. */
  lemma {:induction false} LastEntryWins(j: int, cases: seq<(int, int)>, default: int)
    ensures forall k :: LastAt(j, cases, k) ==> SwitchIndex(j, cases, default) == cases[k].1
    ensures (forall i | 0 <= i < |cases| :: cases[i].0 != j) ==> SwitchIndex(j, cases, default) == default
    decreases |cases|
  {
    if cases != [] {
      var n := |cases| - 1;
      LastEntryWins(j, cases[..n], default);
      forall k | LastAt(j, cases, k)
        ensures SwitchIndex(j, cases, default) == cases[k].1
      {
        assert k < n ==> LastAt(j, cases[..n], k);
        assert k < n ==> cases[n].0 != j;
      }
    }
  }

  /** The last true guard wins; without one it is the default. */
  lemma {:induction false} LastTrueWins<T>(guards: seq<bool>, vals: seq<T>, default: T)
    requires |guards| == |vals|
    ensures forall k :: LastTrue(guards, k) ==> SwitchGuard(guards, vals, default) == vals[k]
    ensures (forall i | 0 <= i < |guards| :: !guards[i]) ==> SwitchGuard(guards, vals, default) == default
    decreases |guards|
  {
    if guards != [] {
      var n := |guards| - 1;
      LastTrueWins(guards[..n], vals[..n], default);
      forall k | LastTrue(guards, k)
        ensures SwitchGuard(guards, vals, default) == vals[k]
      {
        assert k < n ==> LastTrue(guards[..n], k);
        assert k < n ==> !guards[n];
      }
    }
  }

  /** Choosing an array and then an element is choosing among the elements. */
  lemma {:induction false} SwitchThenSelect(guards: seq<bool>, arrs: seq<ArrVal>, default: ArrVal, vals: seq<int>,
                                            j: int)
    requires |guards| == |arrs| == |vals|
    requires forall i | 0 <= i < |arrs| :: arrs[i][j] == vals[i]
    ensures SwitchGuard(guards, arrs, default)[j] == SwitchGuard(guards, vals, default[j])
    decreases |guards|
  {
    if guards != [] {
      var n := |guards| - 1;
      SwitchThenSelect(guards[..n], arrs[..n], default, vals[..n], j);
    }
  }

  function Guards(branches: seq<Branch>): (r: seq<bool>)
    ensures |r| == |branches|
  {
    seq(|branches|, i requires 0 <= i < |branches| => branches[i].guard)
  }

  // ---------- arrays of the theory ----------

  ghost function StoreAll(a: ArrVal, entries: seq<(int, int)>): ArrVal
    decreases |entries|
  {
    if entries == [] then a
    else
      var n := |entries| - 1;
      StoreAll(a, entries[..n])[entries[n].0 := entries[n].1]
  }

  ghost function Theory(h: History, start: ArrVal): ArrVal {
    match h
    case Start => start
    case Write(b, i, e) => Theory(b, start)[i := e]
    case WriteAll(b, entries) => StoreAll(Theory(b, start), entries)
    case Join(d, bs) =>
      var arrs: seq<ArrVal> := seq(|bs|, i requires 0 <= i < |bs| => Theory(bs[i].arr, start));
      SwitchGuard<ArrVal>(Guards(bs), arrs, Theory(d, start))
  }

  /** The theory array's store of several entries: one store after the other. */
  method StoreEntries(a: ArrVal, entries: seq<(int, int)>) returns (base: ArrVal)
    ensures base == StoreAll(a, entries)
    ensures forall j :: base[j] == SwitchIndex(j, entries, a[j])
  {
    base := a;
    for n := 0 to |entries|
      invariant base == StoreAll(a, entries[..n])
    {
      assert entries[..n + 1][..n] == entries[..n];
      base := base[entries[n].0 := entries[n].1];
    }
    assert entries[..|entries|] == entries;
    forall j ensures base[j] == SwitchIndex(j, entries, a[j]) {
      StoreAllAt(a, entries, j);
    }
  }

  /** Storing entries one by one is switching on the index. */
  lemma {:induction false} StoreAllAt(a: ArrVal, entries: seq<(int, int)>, j: int)
    ensures StoreAll(a, entries)[j] == SwitchIndex(j, entries, a[j])
    decreases |entries|
  {
    if entries != [] {
      StoreAllAt(a, entries[..|entries| - 1], j);
    }
  }

  // ---------- closures ----------

  function Inlined(h: History, start: int -> int): int -> int {
    match h
    case Start => start
    case Write(b, i, e) =>
      var base := Inlined(b, start);
      j => if j == i then e else base(j)
    case WriteAll(b, entries) =>
      var base := Inlined(b, start);
      j => SwitchIndex(j, entries, base(j))
    case Join(d, bs) =>
      var fs := seq(|bs|, i requires 0 <= i < |bs| => Inlined(bs[i].arr, start));
      var otherwise := Inlined(d, start);
      j => SwitchGuard(Guards(bs), Selected(fs, j), otherwise(j))
  }

  function Selected(fs: seq<int -> int>, j: int): (r: seq<int>)
    ensures |r| == |fs|
    ensures forall i | 0 <= i < |fs| :: r[i] == fs[i](j)
  {
    seq(|fs|, i requires 0 <= i < |fs| => fs[i](j))
  }

  lemma SelectedAt(fs: seq<int -> int>, f: int -> int, i: nat, j: int)
    requires i < |fs| && fs[i] == f
    ensures Selected(fs, j)[i] == f(j)
  {
  }

  // ---------- functions defined by axioms ----------

  /** The body of a derived function, over the symbols it is derived from. */
  datatype Body =
    | Stored(base: nat, ix: int, elem: int)
    | StoredAll(base: nat, entries: seq<(int, int)>)
    | Joined(default: nat, guards: seq<bool>, syms: seq<nat>)

  /** The axiom that the symbol equals the body at every index. */
  datatype Axiom = Axiom(sym: nat, body: Body)

  /** The symbol that stands for the array, the axioms it carries, the next fresh symbol. */
  datatype Func = Func(sym: nat, axioms: seq<Axiom>, next: nat)

  datatype Funcs = Funcs(syms: seq<nat>, axioms: seq<Axiom>, next: nat)

  function Derive(f: Func, body: Body): Func {
    Func(f.next, f.axioms + [Axiom(f.next, body)], f.next + 1)
  }

  /** Symbol 0 is the initial function. */
  function Derived(h: History, next: nat): (r: Func)
    decreases h, 0
  {
    match h
    case Start => Func(0, [], next)
    case Write(b, i, e) =>
      var f := Derived(b, next);
      Derive(f, Stored(f.sym, i, e))
    case WriteAll(b, entries) =>
      var f := Derived(b, next);
      Derive(f, StoredAll(f.sym, entries))
    case Join(d, bs) =>
      var fs := DerivedAll(bs, next);
      var f := Derived(d, fs.next);
      Derive(Func(f.sym, fs.axioms + f.axioms, f.next), Joined(f.sym, Guards(bs), fs.syms))
  }

  function DerivedAll(bs: seq<Branch>, next: nat): (r: Funcs)
    ensures |r.syms| == |bs|
    decreases bs, 0
  {
    if bs == [] then Funcs([], [], next)
    else
      var f := DerivedBranch(bs[0], next);
      var fs := DerivedAll(bs[1..], f.next);
      Funcs([f.sym] + fs.syms, f.axioms + fs.axioms, fs.next)
  }

  function DerivedBranch(b: Branch, next: nat): Func
    decreases b, 0
  {
    Derived(b.arr, next)
  }

  type Interpretation = nat -> (int -> int)

  function BodyAt(body: Body, interp: Interpretation, j: int): int {
    match body
    case Stored(b, i, e) => if j == i then e else interp(b)(j)
    case StoredAll(b, entries) => SwitchIndex(j, entries, interp(b)(j))
    case Joined(d, guards, syms) =>
      if |guards| == |syms| then
        SwitchGuard(guards, Selected(seq(|syms|, i requires 0 <= i < |syms| => interp(syms[i])), j), interp(d)(j))
      else interp(d)(j)
  }

  ghost predicate Holds(a: Axiom, interp: Interpretation) {
    forall j :: interp(a.sym)(j) == BodyAt(a.body, interp, j)
  }

  ghost predicate AllHold(axioms: seq<Axiom>, interp: Interpretation) {
    forall a | a in axioms :: Holds(a, interp)
  }

  // ---------- the representations agree ----------

  lemma {:induction false} TheoryIsInlined(h: History, start: ArrVal, f: int -> int, j: int)
    requires forall k :: f(k) == start[k]
    ensures Theory(h, start)[j] == Inlined(h, f)(j)
  {
    match h
    case Start =>
    case Write(b, _, _) => TheoryIsInlined(b, start, f, j);
    case WriteAll(b, entries) =>
      TheoryIsInlined(b, start, f, j);
      StoreAllAt(Theory(b, start), entries, j);
    case Join(d, bs) =>
      TheoryIsInlined(d, start, f, j);
      var arrs: seq<ArrVal> := seq(|bs|, i requires 0 <= i < |bs| => Theory(bs[i].arr, start));
      var fs := seq(|bs|, i requires 0 <= i < |bs| => Inlined(bs[i].arr, f));
      var elems := Selected(fs, j);
      forall i | 0 <= i < |bs| ensures arrs[i][j] == elems[i] {
        TheoryIsInlined(bs[i].arr, start, f, j);
        SelectedAt(fs, Inlined(bs[i].arr, f), i, j);
      }
      SwitchThenSelect(Guards(bs), arrs, Theory(d, start), elems, j);
  }

  /** Whatever the symbols mean, if the axioms hold the symbol is the closure. */
  lemma {:induction false} DerivedIsInlined(h: History, next: nat, interp: Interpretation, j: int)
    requires AllHold(Derived(h, next).axioms, interp)
    ensures interp(Derived(h, next).sym)(j) == Inlined(h, interp(0))(j)
    decreases h, 0
  {
    var r := Derived(h, next);
    match h
    case Start =>
    case Write(b, i, e) =>
      DerivedStep(Derived(b, next), Stored(Derived(b, next).sym, i, e), interp);
      DerivedIsInlined(b, next, interp, j);
    case WriteAll(b, entries) =>
      DerivedStep(Derived(b, next), StoredAll(Derived(b, next).sym, entries), interp);
      DerivedIsInlined(b, next, interp, j);
    case Join(d, bs) =>
      var fs := DerivedAll(bs, next);
      var f := Derived(d, fs.next);
      DerivedStep(Func(f.sym, fs.axioms + f.axioms, f.next), Joined(f.sym, Guards(bs), fs.syms), interp);
      AllHoldSplits(fs.axioms, f.axioms, interp);
      DerivedIsInlined(d, fs.next, interp, j);
      DerivedAllAreInlined(bs, next, interp, j);
      var inlined := seq(|bs|, i requires 0 <= i < |bs| => Inlined(bs[i].arr, interp(0)));
      var meant := seq(|bs|, i requires 0 <= i < |bs| => interp(fs.syms[i]));
      assert Selected(inlined, j) == Selected(meant, j);
  }

  lemma {:induction false} DerivedAllAreInlined(bs: seq<Branch>, next: nat, interp: Interpretation, j: int)
    requires AllHold(DerivedAll(bs, next).axioms, interp)
    ensures forall i | 0 <= i < |bs| ::
      interp(DerivedAll(bs, next).syms[i])(j) == Inlined(bs[i].arr, interp(0))(j)
    decreases bs, 0
  {
    if bs != [] {
      var f := DerivedBranch(bs[0], next);
      var fs := DerivedAll(bs[1..], f.next);
      AllHoldSplits(f.axioms, fs.axioms, interp);
      BranchIsInlined(bs[0], next, interp, j);
      DerivedAllAreInlined(bs[1..], f.next, interp, j);
    }
  }

  lemma {:induction false} BranchIsInlined(b: Branch, next: nat, interp: Interpretation, j: int)
    requires AllHold(DerivedBranch(b, next).axioms, interp)
    ensures interp(DerivedBranch(b, next).sym)(j) == Inlined(b.arr, interp(0))(j)
    decreases b, 0
  {
    DerivedIsInlined(b.arr, next, interp, j);
  }

  lemma DerivedStep(f: Func, body: Body, interp: Interpretation)
    requires AllHold(Derive(f, body).axioms, interp)
    ensures AllHold(f.axioms, interp) && Holds(Axiom(f.next, body), interp)
  {
    AllHoldSplits(f.axioms, [Axiom(f.next, body)], interp);
    assert Axiom(f.next, body) in [Axiom(f.next, body)];
  }

  lemma AllHoldSplits(xs: seq<Axiom>, ys: seq<Axiom>, interp: Interpretation)
    ensures AllHold(xs + ys, interp) <==> AllHold(xs, interp) && AllHold(ys, interp)
  {
    forall a | a in xs || a in ys ensures a in xs + ys {
    }
  }

  /** From the same initial contents, the three representations hold the same element at
    * every index. */
  lemma RepresentationsAgree(h: History, start: ArrVal, interp: Interpretation, next: nat, j: int)
    requires forall k :: interp(0)(k) == start[k]
    requires AllHold(Derived(h, next).axioms, interp)
    ensures Theory(h, start)[j] == Inlined(h, interp(0))(j) == interp(Derived(h, next).sym)(j)
  {
    TheoryIsInlined(h, start, interp(0), j);
    DerivedIsInlined(h, next, interp, j);
  }

  // ---------- the axioms never contradict each other ----------

  function Redefine(interp: Interpretation, sym: nat, f: int -> int): Interpretation {
    n => if n == sym then f else interp(n)
  }

  /** An interpretation of the fresh symbols, given one of the older symbols. */
  function Define(axioms: seq<Axiom>, interp: Interpretation): Interpretation
    decreases |axioms|
  {
    if axioms == [] then interp
    else
      var n := |axioms| - 1;
      var before := Define(axioms[..n], interp);
      Redefine(before, axioms[n].sym, j => BodyAt(axioms[n].body, before, j))
  }

  predicate BodyBelow(body: Body, bound: nat) {
    match body
    case Stored(b, _, _) => b < bound
    case StoredAll(b, _) => b < bound
    case Joined(d, _, syms) => d < bound && forall i | 0 <= i < |syms| :: syms[i] < bound
  }

  /** Each axiom defines the next symbol from earlier ones. */
  predicate Ordered(axioms: seq<Axiom>, next: nat) {
    forall i | 0 <= i < |axioms| :: axioms[i].sym == next + i && BodyBelow(axioms[i].body, next + i)
  }

  lemma {:induction false} DerivedIsOrdered(h: History, next: nat)
    requires next > 0
    ensures var r := Derived(h, next);
      Ordered(r.axioms, next) && r.next == next + |r.axioms| && r.sym < r.next
    decreases h, 0
  {
    match h
    case Start =>
    case Write(b, _, _) => DerivedIsOrdered(b, next);
    case WriteAll(b, _) => DerivedIsOrdered(b, next);
    case Join(d, bs) =>
      DerivedAllAreOrdered(bs, next);
      var fs := DerivedAll(bs, next);
      DerivedIsOrdered(d, fs.next);
  }

  lemma {:induction false} DerivedAllAreOrdered(bs: seq<Branch>, next: nat)
    requires next > 0
    ensures var r := DerivedAll(bs, next);
      && Ordered(r.axioms, next) && r.next == next + |r.axioms|
      && forall i | 0 <= i < |bs| :: r.syms[i] < r.next
    decreases bs, 0
  {
    if bs != [] {
      BranchIsOrdered(bs[0], next);
      DerivedAllAreOrdered(bs[1..], DerivedBranch(bs[0], next).next);
    }
  }

  lemma {:induction false} BranchIsOrdered(b: Branch, next: nat)
    requires next > 0
    ensures var r := DerivedBranch(b, next);
      Ordered(r.axioms, next) && r.next == next + |r.axioms| && r.sym < r.next
    decreases b, 0
  {
    DerivedIsOrdered(b.arr, next);
  }

  lemma {:induction false} DefineHolds(axioms: seq<Axiom>, next: nat, interp: Interpretation)
    requires Ordered(axioms, next)
    ensures AllHold(axioms, Define(axioms, interp))
    ensures forall n: nat | n < next :: Define(axioms, interp)(n) == interp(n)
    decreases |axioms|
  {
    if axioms != [] {
      var n := |axioms| - 1;
      var last := axioms[n];
      var before := Define(axioms[..n], interp);
      var after := Define(axioms, interp);
      DefineHolds(axioms[..n], next, interp);
      forall i | 0 <= i < |axioms| ensures Holds(axioms[i], after) {
        forall j ensures after(axioms[i].sym)(j) == BodyAt(axioms[i].body, after, j) {
          SameBody(axioms[i].body, next + i, before, after, j);
          assert i < n ==> axioms[..n][i] == axioms[i] && Holds(axioms[i], before);
        }
      }
    }
  }

  lemma SameBody(body: Body, bound: nat, before: Interpretation, after: Interpretation, j: int)
    requires BodyBelow(body, bound)
    requires forall n: nat | n < bound :: before(n) == after(n)
    ensures BodyAt(body, before, j) == BodyAt(body, after, j)
  {
    match body
    case Stored(_, _, _) =>
    case StoredAll(_, _) =>
    case Joined(_, guards, syms) =>
      assert seq(|syms|, i requires 0 <= i < |syms| => before(syms[i]))
          == seq(|syms|, i requires 0 <= i < |syms| => after(syms[i]));
  }

  /** Any initial contents can be extended to an interpretation that meets all axioms: the
    * axioms of the function representation exclude no initial memory. */
  lemma AxiomsAreConservative(h: History, start: int -> int)
    ensures exists interp: Interpretation :: interp(0) == start && AllHold(Derived(h, 1).axioms, interp)
  {
    DerivedIsOrdered(h, 1);
    var axioms := Derived(h, 1).axioms;
    DefineHolds(axioms, 1, n => start);
    var interp := Define(axioms, n => start);
    assert interp(0) == start;
  }
}
