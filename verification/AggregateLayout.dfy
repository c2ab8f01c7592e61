/** Where the leaves of a nested aggregate live: the flattened initialiser, the address
  * computation over an index path, and the loop that writes the initialiser. */
module AggregateLayout {
  import opened Bits

  datatype Type = Scalar | Array(n: nat, elem: Type) | Record(fields: seq<Type>)

  datatype Const<T> = Leaf(x: T) | Aggregate(elems: seq<Const<T>>)

  ghost predicate HasType<T>(c: Const<T>, t: Type) {
    match (c, t)
    case (Leaf(_), Scalar) => true
    case (Aggregate(es), Array(n, e)) => |es| == n && forall i | 0 <= i < |es| :: HasType(es[i], e)
    case (Aggregate(es), Record(fs)) => |es| == |fs| && forall i | 0 <= i < |es| :: HasType(es[i], fs[i])
    case _ => false
  }

  // ---------- sizes, with the widths the program computes them in ----------

  const WORD: nat := 0x1_0000_0000_0000_0000
  /** Field offsets are unsigned 32-bit integers. */
  const OFFSETS: nat := 0x1_0000_0000

  function Wrap(n: int): (w: nat)
    ensures w < WORD
    ensures 0 <= n < WORD ==> w == n
  {
    n % WORD
  }

  /** The size of a type in elements.  A record without elements still has size one. */
  function SizeInElems(t: Type): nat {
    match t
    case Scalar => 1
    case Array(n, e) => Wrap(SizeInElems(e) * n)
    case Record(fs) => AtLeastOne(SumOfSizes(fs, WORD))
  }

  function AtLeastOne(n: nat): nat {
    if n == 0 then 1 else n
  }

  /** Sizes added up in an unsigned integer of the given range. */
  function SumOfSizes(ts: seq<Type>, range: nat): (r: nat)
    requires range > 0
  {
    if ts == [] then 0
    else
      var k := |ts| - 1;
      (SumOfSizes(ts[..k], range) + SizeInElems(ts[k])) % range
  }

  method VisitType(t: Type) returns (res: nat)
    ensures res == SizeInElems(t)
    decreases t, 1
  {
    match t {
      case Scalar => res := 1;
      case Array(n, e) =>
        res := VisitType(e);
        res := Wrap(res * n);
      case Record(_) => res := VisitRecord(t);
    }
  }

  method VisitRecord(t: Type) returns (res: nat)
    requires t.Record?
    ensures res == SizeInElems(t)
    decreases t, 0
  {
    res := 0;
    for i := 0 to |t.fields|
      invariant res == SumOfSizes(t.fields[..i], WORD)
    {
      assert t.fields[..i + 1][..i] == t.fields[..i];
      var size := VisitType(t.fields[i]);
      res := Wrap(res + size);
    }
    assert t.fields[..|t.fields|] == t.fields;
    res := if res != 0 then res else 1;
  }

  /** The offset of a field, added up in 32 bits. */
  method GetStructOffset(fs: seq<Type>, idx: nat) returns (res: nat)
    requires idx <= |fs|
    ensures res == SumOfSizes(fs[..idx], OFFSETS)
  {
    res := 0;
    for i := 0 to idx
      invariant res == SumOfSizes(fs[..i], OFFSETS)
    {
      assert fs[..i + 1][..i] == fs[..i];
      var size := VisitType(fs[i]);
      res := (res + size) % OFFSETS;
    }
  }

  // ---------- index paths ----------

  /** What the address computation asks of a path: it stays inside aggregates, and a record
    * is indexed by one of its fields. */
  predicate Walks(t: Type, path: seq<int>)
    decreases |path|
  {
    path == [] ||
    match t
    case Scalar => false
    case Array(_, e) => Walks(e, path[1..])
    case Record(fs) => 0 <= path[0] < |fs| && Walks(fs[path[0]], path[1..])
  }

  function TypeAt(t: Type, path: seq<int>): Type
    requires Walks(t, path)
    decreases |path|
  {
    if path == [] then t
    else if t.Array? then TypeAt(t.elem, path[1..])
    else TypeAt(t.fields[path[0]], path[1..])
  }

  /** The shift along a path, before it is reduced to a word. */
  function ShiftSum(t: Type, path: seq<int>): int
    requires Walks(t, path)
    decreases |path|
  {
    if path == [] then 0
    else if t.Array? then path[0] * SizeInElems(t.elem) + ShiftSum(t.elem, path[1..])
    else SumOfSizes(t.fields[..path[0]], OFFSETS) + ShiftSum(t.fields[path[0]], path[1..])
  }

  function GetAggregateElement(t: Type, idx: int): Type
    requires Walks(t, [idx])
  {
    if t.Array? then t.elem else t.fields[idx]
  }

  lemma WalksStep(t: Type, path: seq<int>)
    requires Walks(t, path) && path != []
    ensures Walks(t, [path[0]]) && Walks(GetAggregateElement(t, path[0]), path[1..])
    ensures TypeAt(t, path) == TypeAt(GetAggregateElement(t, path[0]), path[1..])
  {
    assert [path[0]][1..] == [];
  }

  /** The first index steps over whole pointees, the others into the pointee. */
  method CalcShift(pointee: Type, shifts: seq<int>) returns (shift: nat)
    requires shifts != [] && Walks(pointee, shifts[1..])
    ensures shift == Wrap(shifts[0] * SizeInElems(pointee) + ShiftSum(pointee, shifts[1..]))
  {
    var tp := pointee;
    var size := VisitType(tp);
    shift := Wrap(shifts[0] * size);
    ghost var total := Wrap(shifts[0] * size + ShiftSum(tp, shifts[1..]));
    WrapAdds(shifts[0] * size, ShiftSum(tp, shifts[1..]));
    for i := 1 to |shifts|
      invariant shift < WORD && Walks(tp, shifts[i..])
      invariant Wrap(shift + ShiftSum(tp, shifts[i..])) == total
    {
      tp, shift := ShiftByIndex(tp, shifts[i], shift, shifts[i..], total);
      assert shifts[i..][1..] == shifts[i + 1..];
    }
  }

  /** One turn of the loop: the part of one index, which is the first of the remaining path. */
  method ShiftByIndex(tp: Type, s: int, shift: nat, ghost path: seq<int>, ghost total: nat)
    returns (elem: Type, next: nat)
    requires path != [] && path[0] == s && Walks(tp, path) && Wrap(shift + ShiftSum(tp, path)) == total
    ensures Walks(elem, path[1..]) && next < WORD && Wrap(next + ShiftSum(elem, path[1..])) == total
  {
    WalksStep(tp, path);
    elem := GetAggregateElement(tp, s);
    if tp.Record? {
      var offset := GetStructOffset(tp.fields, s);
      PartAdded(shift, offset, ShiftSum(elem, path[1..]), ShiftSum(tp, path), total);
      next := Wrap(shift + offset);
    } else {
      var size := VisitType(elem);
      var part := s * size;
      PartAdded(shift, part, ShiftSum(elem, path[1..]), ShiftSum(tp, path), total);
      next := Wrap(shift + part);
    }
  }

  /** A part of a sum is added first, with wrap-around. */
  lemma PartAdded(shift: nat, part: int, rest: int, sum: int, total: nat)
    requires sum == part + rest && Wrap(shift + sum) == total
    ensures Wrap(Wrap(shift + part) + rest) == total
  {
    WrapAdds(shift + part, rest);
  }

  lemma WrapAdds(a: int, b: int)
    ensures Wrap(Wrap(a) + b) == Wrap(a + b)
  {
  }

  method GetGepChild(pointee: Type, index: seq<int>) returns (ret: Type)
    requires index != [] && Walks(pointee, index[1..])
    ensures ret == TypeAt(pointee, index[1..])
  {
    ret := pointee;
    for i := 1 to |index|
      invariant Walks(ret, index[i..]) && TypeAt(ret, index[i..]) == TypeAt(pointee, index[1..])
    {
      WalksStep(ret, index[i..]);
      assert index[i..][1..] == index[i + 1..];
      ret := GetAggregateElement(ret, index[i]);
    }
  }

  // ---------- flattening ----------

  function Flatten<T>(c: Const<T>): (r: seq<T>)
    decreases c, 0
  {
    match c
    case Leaf(x) => [x]
    case Aggregate(es) => FlattenAll(es)
  }

  function FlattenAll<T>(cs: seq<Const<T>>): seq<T>
    decreases cs, 0
  {
    if cs == [] then []
    else
      var k := |cs| - 1;
      FlattenAll(cs[..k]) + Flatten(cs[k])
  }

  /** The number of leaves. */
  function Leaves(t: Type): nat {
    match t
    case Scalar => 1
    case Array(n, e) => n * Leaves(e)
    case Record(fs) => AllLeaves(fs)
  }

  function AllLeaves(ts: seq<Type>): nat {
    if ts == [] then 0
    else
      var k := |ts| - 1;
      AllLeaves(ts[..k]) + Leaves(ts[k])
  }

  lemma {:induction false} FlattenCounts<T>(c: Const<T>, t: Type)
    requires HasType(c, t)
    ensures |Flatten(c)| == Leaves(t)
    decreases c, 0
  {
    match t
    case Scalar =>
    case Array(n, e) =>
      forall i | 0 <= i < n ensures |Flatten(c.elems[i])| == Leaves(e) { FlattenCounts(c.elems[i], e); }
      UniformLength(c.elems, Leaves(e));
    case Record(fs) =>
      forall i | 0 <= i < |fs| ensures |Flatten(c.elems[i])| == Leaves(fs[i]) { FlattenCounts(c.elems[i], fs[i]); }
      MatchingLength(c.elems, fs);
  }

  lemma {:induction false} UniformLength<T>(cs: seq<Const<T>>, n: nat)
    requires forall i | 0 <= i < |cs| :: |Flatten(cs[i])| == n
    ensures |FlattenAll(cs)| == |cs| * n
    decreases |cs|
  {
    if cs != [] {
      UniformLength(cs[..|cs| - 1], n);
      assert |cs| * n == (|cs| - 1) * n + n;
    }
  }

  lemma {:induction false} MatchingLength<T>(cs: seq<Const<T>>, ts: seq<Type>)
    requires |cs| == |ts| && forall i | 0 <= i < |cs| :: |Flatten(cs[i])| == Leaves(ts[i])
    ensures |FlattenAll(cs)| == AllLeaves(ts)
    decreases |cs|
  {
    if cs != [] {
      MatchingLength(cs[..|cs| - 1], ts[..|ts| - 1]);
    }
  }

  /** The leaves of an element follow those of the elements before it. */
  lemma {:induction false} FlattenAt<T>(cs: seq<Const<T>>, i: nat, j: nat)
    requires i < |cs| && j < |Flatten(cs[i])|
    ensures var k := |FlattenAll(cs[..i])| + j;
      k < |FlattenAll(cs)| && FlattenAll(cs)[k] == Flatten(cs[i])[j]
    decreases |cs|
  {
    var n := |cs| - 1;
    if i < n {
      assert cs[..n][..i] == cs[..i];
      FlattenAt(cs[..n], i, j);
    }
  }

  // ---------- when sizes count leaves ----------

  /** Sizes without overflow. */
  function Elems(t: Type): nat {
    match t
    case Scalar => 1
    case Array(n, e) => n * Elems(e)
    case Record(fs) => AtLeastOne(AllElems(fs))
  }

  function AllElems(ts: seq<Type>): nat {
    if ts == [] then 0
    else
      var k := |ts| - 1;
      AllElems(ts[..k]) + Elems(ts[k])
  }

  /** No type inside reaches 2^64 elements, except below an array of length zero. */
  predicate CountsFit(t: Type) {
    Elems(t) < WORD &&
    match t
    case Scalar => true
    case Array(n, e) => n == 0 || CountsFit(e)
    case Record(fs) => forall i | 0 <= i < |fs| :: CountsFit(fs[i])
  }

  lemma {:induction false} SizesAreElems(t: Type)
    requires CountsFit(t)
    ensures SizeInElems(t) == Elems(t)
  {
    match t
    case Scalar =>
    case Array(n, e) =>
      if n > 0 {
        SizesAreElems(e);
      }
      assert n * Elems(e) == Elems(e) * n;
    case Record(fs) =>
      forall i | 0 <= i < |fs| ensures SizeInElems(fs[i]) == Elems(fs[i]) { SizesAreElems(fs[i]); }
      SmallSums(fs, WORD);
  }

  lemma {:induction false} SmallSums(ts: seq<Type>, range: nat)
    requires AllElems(ts) < range
    requires forall i | 0 <= i < |ts| :: SizeInElems(ts[i]) == Elems(ts[i])
    ensures SumOfSizes(ts, range) == AllElems(ts)
    decreases |ts|
  {
    if ts != [] {
      SmallSums(ts[..|ts| - 1], range);
      SmallMod(AllElems(ts), range);
    }
  }

  /** Offsets are the sizes before a field, up to multiples of their range. */
  lemma {:induction false} SumsWrap(ts: seq<Type>)
    requires forall i | 0 <= i < |ts| :: SizeInElems(ts[i]) == Elems(ts[i])
    ensures SumOfSizes(ts, OFFSETS) == AllElems(ts) % OFFSETS
    decreases |ts|
  {
    if ts != [] {
      var k := |ts| - 1;
      SumsWrap(ts[..k]);
      CutAdds(AllElems(ts[..k]), Elems(ts[k]));
    } else {
      assert SumOfSizes(ts, OFFSETS) == 0 && AllElems(ts) == 0;
    }
  }

  lemma CutAdds(a: nat, b: nat)
    ensures (a % OFFSETS + b) % OFFSETS == (a + b) % OFFSETS
  {
  }

  /** Every record inside has a leaf, except below an array of length zero. */
  predicate NoHollow(t: Type) {
    match t
    case Scalar => true
    case Array(n, e) => n == 0 || NoHollow(e)
    case Record(fs) => Leaves(t) > 0 && forall i | 0 <= i < |fs| :: NoHollow(fs[i])
  }

  /** The size of a type is its number of leaves exactly when no record in it is hollow. */
  lemma {:induction false} SizeCountsLeavesIff(t: Type)
    ensures Elems(t) >= Leaves(t)
    ensures Elems(t) == Leaves(t) <==> NoHollow(t)
  {
    match t
    case Scalar =>
    case Array(n, e) =>
      SizeCountsLeavesIff(e);
      Scale(n, Leaves(e), Elems(e));
    case Record(fs) =>
      forall i | 0 <= i < |fs|
        ensures Elems(fs[i]) >= Leaves(fs[i]) && (Elems(fs[i]) == Leaves(fs[i]) <==> NoHollow(fs[i]))
      {
        SizeCountsLeavesIff(fs[i]);
      }
      SumsAgreeIff(fs);
  }

  lemma Scale(n: nat, a: nat, b: nat)
    requires a <= b
    ensures n * a <= n * b
    ensures n * a == n * b <==> n == 0 || a == b
  {
    var d := b - a;
    assert n * b == n * (a + d) == n * a + n * d;
    assert n * d == 0 <==> n == 0 || d == 0;
  }

  lemma {:induction false} SumsAgreeIff(ts: seq<Type>)
    requires forall i | 0 <= i < |ts| :: Elems(ts[i]) >= Leaves(ts[i])
    ensures AllElems(ts) >= AllLeaves(ts)
    ensures AllElems(ts) == AllLeaves(ts) <==> forall i | 0 <= i < |ts| :: Elems(ts[i]) == Leaves(ts[i])
    decreases |ts|
  {
    if ts != [] {
      var k := |ts| - 1;
      SumsAgreeIff(ts[..k]);
      assert forall i | 0 <= i < k :: ts[..k][i] == ts[i];
    }
  }

  // ---------- main results ----------

  /** A path to a scalar whose array indices are in range. */
  predicate LeafPath(t: Type, path: seq<int>)
    decreases |path|
  {
    if path == [] then t.Scalar?
    else
      match t
      case Scalar => false
      case Array(n, e) => 0 <= path[0] < n && LeafPath(e, path[1..])
      case Record(fs) => 0 <= path[0] < |fs| && LeafPath(fs[path[0]], path[1..])
  }

  lemma {:induction false} LeafPathWalks(t: Type, path: seq<int>)
    requires LeafPath(t, path)
    ensures Walks(t, path)
    decreases |path|
  {
    if path != [] {
      LeafPathWalks(if t.Array? then t.elem else t.fields[path[0]], path[1..]);
    }
  }

  ghost function LeafAt<T>(c: Const<T>, t: Type, path: seq<int>): T
    requires HasType(c, t) && LeafPath(t, path)
    decreases |path|
  {
    if path == [] then c.x
    else if t.Array? then LeafAt(c.elems[path[0]], t.elem, path[1..])
    else LeafAt(c.elems[path[0]], t.fields[path[0]], path[1..])
  }

  /** What the program asserts before it writes an initialiser holds exactly if no record in
    * the type is hollow. */
  lemma ElementCountIsAssertedIff<T>(c: Const<T>, t: Type)
    requires HasType(c, t) && CountsFit(t)
    ensures |Flatten(c)| == SizeInElems(t) <==> NoHollow(t)
  {
    FlattenCounts(c, t);
    SizesAreElems(t);
    SizeCountsLeavesIff(t);
  }

  /** Where a path leads to, without any wrapping. */
  function Position(t: Type, path: seq<int>): int
    requires Walks(t, path)
    decreases |path|
  {
    if path == [] then 0
    else if t.Array? then path[0] * Elems(t.elem) + Position(t.elem, path[1..])
    else AllElems(t.fields[..path[0]]) + Position(t.fields[path[0]], path[1..])
  }

  /** In every record that a path to a leaf goes through, fewer than 2^32 elements lie before
    * a field that has a leaf. */
  predicate Narrow(t: Type) {
    match t
    case Scalar => true
    case Array(n, e) => Leaves(t) == 0 || Narrow(e)
    case Record(fs) =>
      forall i | 0 <= i < |fs| :: Leaves(fs[i]) > 0 ==> AllElems(fs[..i]) < OFFSETS && Narrow(fs[i])
  }

  lemma {:induction false} LeafPathHasLeaves(t: Type, path: seq<int>)
    requires LeafPath(t, path)
    ensures Leaves(t) > 0
    decreases |path|
  {
    if path != [] {
      var e := if t.Array? then t.elem else t.fields[path[0]];
      LeafPathHasLeaves(e, path[1..]);
      if t.Array? {
        MulSign(t.n, Leaves(e));
      } else {
        LeavesOfField(t.fields, path[0]);
      }
    }
  }

  lemma {:induction false} LeavesOfField(ts: seq<Type>, i: nat)
    requires i < |ts|
    ensures Leaves(ts[i]) <= AllLeaves(ts)
    decreases |ts|
  {
    if i < |ts| - 1 {
      LeavesOfField(ts[..|ts| - 1], i);
    }
  }

  /** A type with leaves has a path to one of them. */
  lemma {:induction false} SomeLeafPath(t: Type) returns (path: seq<int>)
    requires Leaves(t) > 0
    ensures LeafPath(t, path)
  {
    match t
    case Scalar => path := [];
    case Array(n, e) =>
      assert n > 0 && Leaves(e) > 0 by {
        assert n == 0 || Leaves(e) == 0 ==> n * Leaves(e) == 0;
      }
      var rest := SomeLeafPath(e);
      path := [0] + rest;
      assert path[1..] == rest;
    case Record(fs) =>
      var i := FieldWithLeaf(fs);
      var rest := SomeLeafPath(fs[i]);
      path := [i] + rest;
      assert path[1..] == rest;
  }

  lemma {:induction false} FieldWithLeaf(ts: seq<Type>) returns (i: nat)
    requires AllLeaves(ts) > 0
    ensures i < |ts| && Leaves(ts[i]) > 0
    decreases |ts|
  {
    i := |ts| - 1;
    if Leaves(ts[i]) == 0 {
      i := FieldWithLeaf(ts[..i]);
    }
  }

  /** The computed shift never exceeds the position. */
  lemma {:induction false} ShiftAtMostPosition(t: Type, path: seq<int>)
    requires CountsFit(t) && LeafPath(t, path)
    ensures Walks(t, path) && ShiftSum(t, path) <= Position(t, path)
    decreases |path|
  {
    LeafPathWalks(t, path);
    if path != [] {
      ShiftStep(t, path);
      ShiftAtMostPosition(if t.Array? then t.elem else t.fields[path[0]], path[1..]);
    }
  }

  /** One index contributes its exact part in an array, and in a record up to wrapping. */
  lemma ShiftStep(t: Type, path: seq<int>)
    requires CountsFit(t) && LeafPath(t, path) && path != [] && Walks(t, path)
    ensures t.Array? ==> CountsFit(t.elem) && ShiftSum(t, path) == path[0] * Elems(t.elem) + ShiftSum(t.elem, path[1..])
    ensures t.Record? ==>
      ShiftSum(t, path) == AllElems(t.fields[..path[0]]) % OFFSETS + ShiftSum(t.fields[path[0]], path[1..])
  {
    if t.Array? {
      SizesAreElems(t.elem);
    } else {
      var before := t.fields[..path[0]];
      forall j | 0 <= j < |before| ensures SizeInElems(before[j]) == Elems(before[j]) { SizesAreElems(t.fields[j]); }
      SumsWrap(before);
    }
  }

  lemma {:induction false} NarrowShiftIsPosition(t: Type, path: seq<int>)
    requires CountsFit(t) && Narrow(t) && LeafPath(t, path)
    ensures Walks(t, path) && ShiftSum(t, path) == Position(t, path)
    decreases |path|
  {
    LeafPathWalks(t, path);
    if path != [] {
      var e := if t.Array? then t.elem else t.fields[path[0]];
      ShiftStep(t, path);
      LeafPathHasLeaves(t, path);
      LeafPathHasLeaves(e, path[1..]);
      NarrowShiftIsPosition(e, path[1..]);
    }
  }

  lemma {:induction false} WideShiftIsShort(t: Type) returns (path: seq<int>)
    requires CountsFit(t) && !Narrow(t)
    ensures LeafPath(t, path) && Walks(t, path) && ShiftSum(t, path) < Position(t, path)
  {
    match t
    case Array(n, e) =>
      assert n > 0 by {
        assert n == 0 ==> n * Leaves(e) == 0;
      }
      var rest := WideShiftIsShort(e);
      path := [0] + rest;
      assert path[1..] == rest;
      LeafPathWalks(t, path);
      ShiftStep(t, path);
    case Record(fs) =>
      var i: nat :| i < |fs| && Leaves(fs[i]) > 0 && (AllElems(fs[..i]) >= OFFSETS || !Narrow(fs[i]));
      var rest;
      if Narrow(fs[i]) {
        rest := SomeLeafPath(fs[i]);
        ShiftAtMostPosition(fs[i], rest);
      } else {
        rest := WideShiftIsShort(fs[i]);
      }
      path := [i] + rest;
      FieldShiftIsShort(t, i, rest);
  }

  /** A field behind too many elements, or with a short shift inside, has a short shift. */
  lemma FieldShiftIsShort(t: Type, i: nat, rest: seq<int>)
    requires t.Record? && CountsFit(t) && i < |t.fields| && LeafPath(t.fields[i], rest) && Walks(t.fields[i], rest)
    requires ShiftSum(t.fields[i], rest) <= Position(t.fields[i], rest)
    requires AllElems(t.fields[..i]) >= OFFSETS || ShiftSum(t.fields[i], rest) < Position(t.fields[i], rest)
    ensures var path := [i] + rest;
      LeafPath(t, path) && Walks(t, path) && ShiftSum(t, path) < Position(t, path)
  {
    var path := [i] + rest;
    assert path[1..] == rest;
    LeafPathWalks(t, path);
    ShiftStep(t, path);
  }

  ghost predicate ShiftsAreExact(t: Type) {
    forall path | LeafPath(t, path) :: Walks(t, path) && ShiftSum(t, path) == Position(t, path)
  }

  /** The address computation is exact for all leaves of a type exactly if the type is narrow. */
  lemma ShiftsAreExactIff(t: Type)
    requires CountsFit(t)
    ensures ShiftsAreExact(t) <==> Narrow(t)
  {
    if Narrow(t) {
      forall path | LeafPath(t, path) ensures Walks(t, path) && ShiftSum(t, path) == Position(t, path) {
        NarrowShiftIsPosition(t, path);
      }
    } else {
      var path := WideShiftIsShort(t);
    }
  }

  // ---------- places in the flattened initialiser ----------

  /** The number of leaves before the one that a path leads to. */
  function Place(t: Type, path: seq<int>): (p: int)
    requires Walks(t, path)
    decreases |path|
  {
    if path == [] then 0
    else if t.Array? then path[0] * Leaves(t.elem) + Place(t.elem, path[1..])
    else AllLeaves(t.fields[..path[0]]) + Place(t.fields[path[0]], path[1..])
  }

  /** That is its place in the flattened initialiser. */
  lemma {:induction false} LeafAtPlace<T>(c: Const<T>, t: Type, path: seq<int>)
    requires HasType(c, t) && LeafPath(t, path)
    ensures Walks(t, path)
    ensures 0 <= Place(t, path) < |Flatten(c)|
    ensures Flatten(c)[Place(t, path)] == LeafAt(c, t, path)
    decreases |path|
  {
    LeafPathWalks(t, path);
    if path != [] {
      var i := path[0];
      var e := if t.Array? then t.elem else t.fields[i];
      LeafAtPlace(c.elems[i], e, path[1..]);
      FlattenAt(c.elems, i, Place(e, path[1..]));
      LeavesBefore(c, t, i);
    }
  }

  lemma LeavesBefore<T>(c: Const<T>, t: Type, i: nat)
    requires HasType(c, t) && c.Aggregate? && i < |c.elems|
    ensures |FlattenAll(c.elems[..i])| == if t.Array? then i * Leaves(t.elem) else AllLeaves(t.fields[..i])
  {
    if t.Array? {
      forall j | 0 <= j < i ensures |Flatten(c.elems[j])| == Leaves(t.elem) { FlattenCounts(c.elems[j], t.elem); }
      UniformLength(c.elems[..i], Leaves(t.elem));
    } else {
      var before := t.fields[..i];
      forall j | 0 <= j < i ensures |Flatten(c.elems[j])| == Leaves(before[j]) {
        FlattenCounts(c.elems[j], t.fields[j]);
      }
      MatchingLength(c.elems[..i], before);
    }
  }

  /** No record that is hollow comes before a leaf. */
  predicate NoHollowBefore(t: Type) {
    match t
    case Scalar => true
    case Array(n, e) => Leaves(t) == 0 || (NoHollowBefore(e) && (n == 1 || NoHollow(e)))
    case Record(fs) =>
      forall i | 0 <= i < |fs| && Leaves(fs[i]) > 0 ::
        NoHollowBefore(fs[i]) && forall j | 0 <= j < i :: NoHollow(fs[j])
  }

  lemma {:induction false} NoHollowIsNoneBefore(t: Type)
    requires NoHollow(t)
    ensures NoHollowBefore(t)
  {
    match t
    case Scalar =>
    case Array(n, e) =>
      if n > 0 {
        NoHollowIsNoneBefore(e);
      } else {
        assert n * Leaves(e) == 0;
      }
    case Record(fs) =>
      forall i | 0 <= i < |fs| ensures NoHollowBefore(fs[i]) {
        NoHollowIsNoneBefore(fs[i]);
      }
  }

  /** The elements before a field are at least as many as the leaves before it, and exactly
    * as many if no field before it is or has a hollow record. */
  lemma FieldsBefore(fs: seq<Type>, i: nat)
    requires i <= |fs|
    ensures AllElems(fs[..i]) >= AllLeaves(fs[..i])
    ensures AllElems(fs[..i]) == AllLeaves(fs[..i]) <==> forall j | 0 <= j < i :: NoHollow(fs[j])
  {
    var before := fs[..i];
    forall j | 0 <= j < i
      ensures Elems(before[j]) >= Leaves(before[j]) && (Elems(before[j]) == Leaves(before[j]) <==> NoHollow(fs[j]))
    {
      SizeCountsLeavesIff(fs[j]);
    }
    SumsAgreeIff(before);
  }

  lemma {:induction false} PositionAtLeastPlace(t: Type, path: seq<int>)
    requires LeafPath(t, path)
    ensures Walks(t, path) && Position(t, path) >= Place(t, path)
    decreases |path|
  {
    LeafPathWalks(t, path);
    if path != [] {
      if t.Array? {
        PositionAtLeastPlace(t.elem, path[1..]);
        SizeCountsLeavesIff(t.elem);
        Scale(path[0], Leaves(t.elem), Elems(t.elem));
      } else {
        PositionAtLeastPlace(t.fields[path[0]], path[1..]);
        FieldsBefore(t.fields, path[0]);
      }
    }
  }

  lemma {:induction false} PositionIsPlace(t: Type, path: seq<int>)
    requires NoHollowBefore(t) && LeafPath(t, path)
    ensures Walks(t, path) && Position(t, path) == Place(t, path)
    decreases |path|
  {
    LeafPathWalks(t, path);
    if path != [] {
      LeafPathHasLeaves(t, path);
      if t.Array? {
        PositionIsPlace(t.elem, path[1..]);
        SizeCountsLeavesIff(t.elem);
        Scale(path[0], Leaves(t.elem), Elems(t.elem));
      } else {
        LeafPathHasLeaves(t.fields[path[0]], path[1..]);
        PositionIsPlace(t.fields[path[0]], path[1..]);
        FieldsBefore(t.fields, path[0]);
      }
    }
  }

  lemma {:induction false} HollowPushesOn(t: Type) returns (path: seq<int>)
    requires !NoHollowBefore(t)
    ensures LeafPath(t, path) && Walks(t, path) && Position(t, path) > Place(t, path)
  {
    match t
    case Array(n, e) =>
      ElementHasLeaves(n, Leaves(e));
      var rest;
      if NoHollowBefore(e) {
        rest := SomeLeafPath(e);
        PositionAtLeastPlace(e, rest);
        SizeCountsLeavesIff(e);
        path := [1] + rest;
      } else {
        rest := HollowPushesOn(e);
        path := [0] + rest;
      }
      assert path[1..] == rest;
      LeafPathWalks(t, path);
    case Record(fs) =>
      var i: nat :| i < |fs| && Leaves(fs[i]) > 0
        && !(NoHollowBefore(fs[i]) && forall j | 0 <= j < i :: NoHollow(fs[j]));
      var rest;
      if NoHollowBefore(fs[i]) {
        rest := SomeLeafPath(fs[i]);
        PositionAtLeastPlace(fs[i], rest);
      } else {
        rest := HollowPushesOn(fs[i]);
      }
      FieldsBefore(fs, i);
      path := [i] + rest;
      assert path[1..] == rest;
      LeafPathWalks(t, path);
  }

  lemma ElementHasLeaves(n: nat, leaves: nat)
    requires n * leaves != 0
    ensures n > 0 && leaves > 0
  {
    assert n == 0 ==> n * leaves == 0;
    assert leaves == 0 ==> n * leaves == 0;
  }

  /** Every path to a leaf has its place in the flattened initialiser for its shift. */
  ghost predicate ShiftsArePlaces(t: Type) {
    forall path | LeafPath(t, path) :: Walks(t, path) && ShiftSum(t, path) == Place(t, path)
  }

  /** Where offsets do not wrap, the address computation finds every leaf at its place in the
    * flattened initialiser exactly if no hollow record comes before a leaf. */
  lemma ShiftsArePlacesIff(t: Type)
    requires CountsFit(t) && Narrow(t)
    ensures ShiftsArePlaces(t) <==> NoHollowBefore(t)
  {
    if NoHollowBefore(t) {
      forall path | LeafPath(t, path) ensures Walks(t, path) && ShiftSum(t, path) == Place(t, path) {
        NarrowShiftIsPosition(t, path);
        PositionIsPlace(t, path);
      }
    } else {
      var path := HollowPushesOn(t);
      NarrowShiftIsPosition(t, path);
    }
  }

  /** The position of a leaf is its place in the flattened initialiser. */
  lemma LeafAtPosition<T>(c: Const<T>, t: Type, path: seq<int>)
    requires HasType(c, t) && NoHollowBefore(t) && LeafPath(t, path)
    ensures Walks(t, path)
    ensures 0 <= Position(t, path) < |Flatten(c)|
    ensures Flatten(c)[Position(t, path)] == LeafAt(c, t, path)
  {
    LeafAtPlace(c, t, path);
    PositionIsPlace(t, path);
  }

  /** The shift along an index path is the place of the leaf in the flattened initialiser. */
  lemma LeafAtShift<T>(c: Const<T>, t: Type, path: seq<int>)
    requires HasType(c, t) && CountsFit(t) && Narrow(t) && NoHollowBefore(t) && LeafPath(t, path)
    ensures Walks(t, path)
    ensures 0 <= ShiftSum(t, path) < |Flatten(c)|
    ensures Flatten(c)[ShiftSum(t, path)] == LeafAt(c, t, path)
  {
    LeafAtPosition(c, t, path);
    NarrowShiftIsPosition(t, path);
  }

  /** A constant of the type whose leaves are their own paths. */
  function Labelled(t: Type, prefix: seq<int>): Const<seq<int>> {
    match t
    case Scalar => Leaf(prefix)
    case Array(n, e) => Aggregate(seq(n, i => Labelled(e, prefix + [i])))
    case Record(fs) => Aggregate(seq(|fs|, i requires 0 <= i < |fs| => Labelled(fs[i], prefix + [i])))
  }

  lemma {:induction false} LabelledLeaf(t: Type, prefix: seq<int>, path: seq<int>)
    requires LeafPath(t, path)
    ensures HasType(Labelled(t, prefix), t)
    ensures LeafAt(Labelled(t, prefix), t, path) == prefix + path
    decreases |path|
  {
    LabelledHasType(t, prefix);
    if path != [] {
      LabelledLeaf(if t.Array? then t.elem else t.fields[path[0]], prefix + [path[0]], path[1..]);
      assert prefix + [path[0]] + path[1..] == prefix + path;
    } else {
      assert prefix + path == prefix;
    }
  }

  lemma {:induction false} LabelledHasType(t: Type, prefix: seq<int>)
    ensures HasType(Labelled(t, prefix), t)
  {
    match t
    case Scalar =>
    case Array(n, e) =>
      forall i | 0 <= i < n ensures HasType(Labelled(e, prefix + [i]), e) { LabelledHasType(e, prefix + [i]); }
    case Record(fs) =>
      forall i | 0 <= i < |fs| ensures HasType(Labelled(fs[i], prefix + [i]), fs[i]) {
        LabelledHasType(fs[i], prefix + [i]);
      }
  }

  /** Different leaves lie at different shifts. */
  lemma ShiftsAreDistinct(t: Type, p: seq<int>, q: seq<int>)
    requires CountsFit(t) && Narrow(t) && NoHollowBefore(t) && LeafPath(t, p) && LeafPath(t, q)
    ensures Walks(t, p) && Walks(t, q)
    ensures ShiftSum(t, p) == ShiftSum(t, q) ==> p == q
  {
    var c := Labelled(t, []);
    LabelledLeaf(t, [], p);
    LabelledLeaf(t, [], q);
    LeafAtShift(c, t, p);
    LeafAtShift(c, t, q);
    assert [] + p == p && [] + q == q;
  }

  // ---------- writing the initialiser ----------

  /** The pointer k cells on. */
  function At(base: nat, k: nat): nat {
    Wrap(base + k)
  }

  function Written<T>(memory: map<nat, T>, start: nat, data: seq<T>): map<nat, T>
    decreases |data|
  {
    if data == [] then memory
    else
      var k := |data| - 1;
      Written(memory, start, data[..k])[At(start, k) := data[k]]
  }

  method WriteSeqData<T>(memory: map<nat, T>, start: nat, data: seq<T>) returns (mem: map<nat, T>)
    ensures mem == Written(memory, start, data)
  {
    mem := memory;
    var base := Wrap(start);
    for i := 0 to |data|
      invariant base == At(start, i)
      invariant mem == Written(memory, start, data[..i])
    {
      assert data[..i + 1][..i] == data[..i];
      mem := mem[base := data[i]];
      WrapAdds(start + i, 1);
      base := Wrap(base + 1);
    }
    assert data[..|data|] == data;
  }

  /** Each datum is in its cell afterwards, and no other cell has changed. */
  lemma {:induction false} WrittenHolds<T>(memory: map<nat, T>, start: nat, data: seq<T>)
    requires |data| <= WORD
    ensures var mem := Written(memory, start, data);
      && (forall k | 0 <= k < |data| :: At(start, k) in mem && mem[At(start, k)] == data[k])
      && (forall p | forall k | 0 <= k < |data| :: At(start, k) != p ::
            (p in mem <==> p in memory) && (p in mem ==> mem[p] == memory[p]))
    decreases |data|
  {
    if data != [] {
      var i := |data| - 1;
      WrittenHolds(memory, start, data[..i]);
      forall k | 0 <= k < i ensures At(start, k) != At(start, i) { AtDistinct(start, k, i); }
    }
  }

  lemma AtDistinct(base: nat, k: nat, l: nat)
    requires k < l < WORD
    ensures At(base, k) != At(base, l)
  {
    var q := (base + l) / WORD - (base + k) / WORD;
    assert l - k == q * WORD + At(base, l) - At(base, k);
  }

  /** If the asserted element count is right, then after the initialiser is written the
    * address computed over an index path holds the leaf of that path. */
  lemma InitialiserIsFound<T>(memory: map<nat, T>, start: nat, c: Const<T>, t: Type, path: seq<int>)
    requires HasType(c, t) && CountsFit(t) && Narrow(t) && |Flatten(c)| == SizeInElems(t) && LeafPath(t, path)
    ensures Walks(t, path)
    ensures var p := Wrap(start + Wrap(ShiftSum(t, path)));
      var mem := Written(memory, start, Flatten(c));
      p in mem && mem[p] == LeafAt(c, t, path)
  {
    AssertedHasNoHollow(c, t);
    LeafAtShift(c, t, path);
    CellIsFound(memory, start, Flatten(c), ShiftSum(t, path));
  }

  lemma AssertedHasNoHollow<T>(c: Const<T>, t: Type)
    requires HasType(c, t) && CountsFit(t) && |Flatten(c)| == SizeInElems(t)
    ensures NoHollowBefore(t) && |Flatten(c)| < WORD
  {
    ElementCountIsAssertedIff(c, t);
    NoHollowIsNoneBefore(t);
    SizesAreElems(t);
  }

  lemma CellIsFound<T>(memory: map<nat, T>, start: nat, data: seq<T>, k: nat)
    requires k < |data| < WORD
    ensures var p := Wrap(start + Wrap(k));
      p in Written(memory, start, data) && Written(memory, start, data)[p] == data[k]
  {
    WrittenHolds(memory, start, data);
    assert Wrap(start + Wrap(k)) == At(start, k);
  }

  // ---------- where the layouts part ----------

  /** A hollow record takes an element in the address computation and none in the
    * initialiser. */
  lemma HollowRecordShiftsWhatFollows<T>(x: T)
    ensures var t := Record([Record([]), Scalar]);
      var c := Aggregate([Aggregate([]), Leaf(x)]);
      && HasType(c, t) && Flatten(c) == [x]
      && LeafPath(t, [1]) && Walks(t, [1]) && ShiftSum(t, [1]) == 1
  {
    var t := Record([Record([]), Scalar]);
    var c := Aggregate([Aggregate([]), Leaf(x)]);
    var es := c.elems;
    assert es[..1] == [Aggregate([])] && es[..1][..0] == [];
    assert t.fields[..1] == [Record([])] && t.fields[..1][..0] == [];
    assert FlattenAll(es[..1]) == [];
    assert Flatten(es[1]) == [x];
    var rest := [1][1..];
    assert rest == [] && LeafPath(Scalar, rest);
    assert SumOfSizes(t.fields[..1], OFFSETS) == 1;
  }

  /** A field behind 2^32 elements gets the offset of the first field: offsets are added up
    * in 32 bits. */
  lemma WideFieldsCollide()
    ensures var t := Record([Array(OFFSETS, Scalar), Scalar]);
      && NoHollow(t) && LeafPath(t, [0, 0]) && LeafPath(t, [1]) && Walks(t, [0, 0]) && Walks(t, [1])
      && ShiftSum(t, [0, 0]) == ShiftSum(t, [1])
  {
    var a := Array(OFFSETS, Scalar);
    var t := Record([a, Scalar]);
    assert t.fields[..2] == t.fields && t.fields[..1] == [a] && t.fields[..0] == [] && [a][..0] == [];
    assert AllLeaves(t.fields) == AllLeaves([a]) + 1;
    assert [1][1..] == [] && [0, 0][1..] == [0] && [0][1..] == [];
    assert SumOfSizes([a], OFFSETS) == OFFSETS % OFFSETS;
    assert SumOfSizes(t.fields[..1], OFFSETS) == 0;
    assert ShiftSum(a, [0]) == 0;
  }
}
