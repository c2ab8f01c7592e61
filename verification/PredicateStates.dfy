/** Predicate states: trees of predicate lists, sequences and branches, together with the
  * purely structural operations on them. */
module PredicateStates {
  import opened SmtLogic

  // ---------- predicates ----------

  datatype PredicateType = PATH | STATE | REQUIRES | ENSURES | ASSERT | ASSUME | INVARIANT

  datatype IntTerm =
    | Const(n: int)
    | Value(name: string)
    | Load(id: ArrayId, ptr: IntTerm)
    | Binary(op: ArithOp, l: IntTerm, r: IntTerm)

  datatype BoolTerm =
    | BoolLit(b: bool)
    | Flag(name: string)
    | Compare(cop: CmpOp, l: IntTerm, r: IntTerm)
    | Combine(lop: LogicOp, p: BoolTerm, q: BoolTerm)

  datatype Action =
    | Equality(lhv: IntTerm, rhv: IntTerm)
    | Inequality(lhv: IntTerm, rhv: IntTerm)
    | BoolEquality(lhs: BoolTerm, rhs: BoolTerm)
    | Write(id: ArrayId, ptr: IntTerm, val: IntTerm)

  datatype Predicate = Predicate(kind: PredicateType, action: Action)

  // ---------- states ----------

  datatype State =
    | Basic(data: seq<Predicate>)
    | Chain(base: State, curr: State)
    | Choice(choices: seq<State>)

  const Empty := Basic([])

  predicate IsEmpty(s: State)
    decreases s, 1
  {
    match s
    case Basic(data) => data == []
    case Chain(base, curr) => IsEmpty(curr) && IsEmpty(base)
    case Choice(cs) => AllEmpty(cs)
  }

  predicate AllEmpty(cs: seq<State>)
    decreases cs, 0
  {
    cs == [] || (IsEmpty(cs[0]) && AllEmpty(cs[1..]))
  }

  function Size(s: State): nat
    decreases s, 1
  {
    match s
    case Basic(data) => |data|
    case Chain(base, curr) => Size(curr) + Size(base)
    case Choice(cs) => TotalSize(cs)
  }

  function TotalSize(cs: seq<State>): nat
    decreases cs, 0
  {
    if cs == [] then 0 else Size(cs[0]) + TotalSize(cs[1..])
  }

  // ---------- filtering, splitting, reversing ----------

  function KeepKinds(data: seq<Predicate>, kinds: set<PredicateType>): seq<Predicate> {
    if data == [] then []
    else if data[0].kind in kinds then [data[0]] + KeepKinds(data[1..], kinds)
    else KeepKinds(data[1..], kinds)
  }

  function DropKinds(data: seq<Predicate>, kinds: set<PredicateType>): seq<Predicate> {
    if data == [] then []
    else if data[0].kind in kinds then DropKinds(data[1..], kinds)
    else [data[0]] + DropKinds(data[1..], kinds)
  }

  function FilterByTypes(s: State, kinds: set<PredicateType>): State
    decreases s, 1
  {
    match s
    case Basic(data) => Basic(KeepKinds(data, kinds))
    case Chain(base, curr) => Chain(FilterByTypes(base, kinds), FilterByTypes(curr, kinds))
    case Choice(cs) => Choice(FilterAll(cs, kinds))
  }

  function FilterAll(cs: seq<State>, kinds: set<PredicateType>): (r: seq<State>)
    ensures |r| == |cs|
    decreases cs, 0
  {
    if cs == [] then [] else [FilterByTypes(cs[0], kinds)] + FilterAll(cs[1..], kinds)
  }

  function SplitByTypes(s: State, kinds: set<PredicateType>): (State, State)
    decreases s, 1
  {
    match s
    case Basic(data) => (Basic(KeepKinds(data, kinds)), Basic(DropKinds(data, kinds)))
    case Chain(base, curr) =>
      var b := SplitByTypes(base, kinds);
      var c := SplitByTypes(curr, kinds);
      (Chain(b.0, c.0), Chain(b.1, c.1))
    case Choice(cs) =>
      var r := SplitAll(cs, kinds);
      (Choice(r.0), Choice(r.1))
  }

  function SplitAll(cs: seq<State>, kinds: set<PredicateType>): (r: (seq<State>, seq<State>))
    ensures |r.0| == |r.1| == |cs|
    decreases cs, 0
  {
    if cs == [] then ([], [])
    else
      var h := SplitByTypes(cs[0], kinds);
      var t := SplitAll(cs[1..], kinds);
      ([h.0] + t.0, [h.1] + t.1)
  }

  function ReverseSeq<T>(s: seq<T>): seq<T> {
    if s == [] then [] else ReverseSeq(s[1..]) + [s[0]]
  }

  /** A choice reverses each alternative but keeps the order of the alternatives. */
  function Reverse(s: State): State
    decreases s, 1
  {
    match s
    case Basic(data) => Basic(ReverseSeq(data))
    case Chain(base, curr) => Chain(Reverse(curr), Reverse(base))
    case Choice(cs) => Choice(ReverseAll(cs))
  }

  function ReverseAll(cs: seq<State>): (r: seq<State>)
    ensures |r| == |cs|
    decreases cs, 0
  {
    if cs == [] then [] else [Reverse(cs[0])] + ReverseAll(cs[1..])
  }

  // ---------- slicing ----------

  datatype Option<+T> = None | Some(value: T)

  /** What remains of `s` once the prefix `on` has been cut off, if `on` is such a prefix. */
  function SliceOn(s: State, on: State): Option<State>
    decreases s, 1
  {
    match s
    case Basic(data) =>
      if s == on then Some(Basic([]))
      else if on.Basic? && on.data <= data then Some(Basic(data[|on.data|..]))
      else None
    case Chain(base, curr) =>
      if base == on then Some(curr)
      else
        (match SliceOn(base, on)
         case Some(r) => Some(Chain(r, curr))
         case None => None)
    case Choice(cs) =>
      match SliceAll(cs, on)
      case Some(rs) => Some(Choice(rs))
      case None => None
  }

  function SliceAll(cs: seq<State>, on: State): Option<seq<State>>
    decreases cs, 0
  {
    if cs == [] then Some([])
    else
      match (SliceOn(cs[0], on), SliceAll(cs[1..], on))
      case (Some(r), Some(rs)) => Some([r] + rs)
      case _ => None
  }

  // ---------- simplification ----------

  /** `[x == true]` against `[x == false]`, in either order, and nothing else. */
  predicate Complementary(cs: seq<State>) {
    && |cs| == 2
    && cs[0].Basic? && cs[1].Basic? && |cs[0].data| == 1 && |cs[1].data| == 1
    && OppositeTests(cs[0].data[0].action, cs[1].data[0].action)
  }

  predicate OppositeTests(p: Action, q: Action) {
    && p.BoolEquality? && q.BoolEquality? && p.lhs == q.lhs
    && (   (p.rhs == BoolLit(true) && q.rhs == BoolLit(false))
        || (p.rhs == BoolLit(false) && q.rhs == BoolLit(true)))
  }

  function Simplify(s: State): State
    decreases s, 1
  {
    match s
    case Basic(_) => s
    case Chain(base, curr) =>
      var b := Simplify(base);
      var c := Simplify(curr);
      if IsEmpty(c) then b else if IsEmpty(b) then c else Chain(b, c)
    case Choice(cs) =>
      var kept := SimplifyAll(cs);
      if Complementary(kept) then Choice([])
      else if |kept| == 1 then kept[0]
      else Choice(kept)
  }

  /** The simplified alternatives that are not empty. */
  function SimplifyAll(cs: seq<State>): seq<State>
    decreases cs, 0
  {
    if cs == [] then []
    else
      var h := Simplify(cs[0]);
      if IsEmpty(h) then SimplifyAll(cs[1..]) else [h] + SimplifyAll(cs[1..])
  }

  // ---------- the factory ----------

  function MakeChain(base: State, curr: State): State {
    if IsEmpty(base) then curr else if IsEmpty(curr) then base else Chain(base, curr)
  }

  function MakeChoice(choices: seq<State>): State {
    if |choices| == 1 then choices[0] else Choice(choices)
  }

  // ---------- meaning: the set of predicate paths ----------

  ghost function Paths(s: State): set<seq<Predicate>>
    decreases s, 1
  {
    match s
    case Basic(data) => {data}
    case Chain(base, curr) => Concat(Paths(base), Paths(curr))
    case Choice(cs) => AllPaths(cs)
  }

  ghost function AllPaths(cs: seq<State>): set<seq<Predicate>>
    decreases cs, 0
  {
    if cs == [] then {} else Paths(cs[0]) + AllPaths(cs[1..])
  }

  ghost function Concat<T(!new)>(a: set<seq<T>>, b: set<seq<T>>): set<seq<T>> {
    set p, q | p in a && q in b :: Join(p, q)
  }

  /** Concatenation, arranged so that joining with the empty path creates no new term. */
  ghost function Join<T>(p: seq<T>, q: seq<T>): (r: seq<T>)
    ensures r == p + q
  {
    if q == [] then p else if p == [] then q else p + q
  }
}
