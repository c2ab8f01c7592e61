/** The tree that holds the executor's memory: nodes are created where they are needed, and a
  * whole node may be uninitialised or filled with one byte until a store goes below it. */
module SegmentTrees {

  type Byte = bv8

  datatype Status = Unallocated | Malloc | Alloca
  datatype MemState = Memset | Uninit | Unknown

  /** The contents of memory at one place.  A chunk that is created by a store has garbage
    * where the store does not reach. */
  datatype Cell = Absent | Unwritten | Garbage | Known(b: Byte)

  /** A node on level 0 is a chunk; its bytes are there once it has been stored to. */
  datatype Tree =
    | Nil
    | Node(status: Status, state: MemState, memSetTo: Byte, reallyAllocated: nat, chunk: seq<Cell>,
           left: Tree, right: Tree)

  /** The size of a node. */
  function Len(chunk: nat, k: nat): (n: nat)
    ensures chunk > 0 ==> n > 0
  {
    if k == 0 then chunk else 2 * Len(chunk, k - 1)
  }

  /** A node is created without contents. */
  function Force(t: Tree): Tree {
    if t.Nil? then Node(Unallocated, Unknown, 255, 0, [], Nil, Nil) else t
  }

  function Child(t: Tree, parent: Tree): Tree
    requires parent.Node?
  {
    if t.Nil? then Node(Unallocated, parent.state, parent.memSetTo, 0, [], Nil, Nil) else t
  }

  /** Children that are not there yet take over the state; the node has none any more. */
  function ForceChildrenAndDeriveState(t: Tree): (r: Tree)
    requires t.Node?
    ensures r.Node?
  {
    t.(left := Child(t.left, t), right := Child(t.right, t), state := Unknown)
  }

  // ---------- allocating ----------

  datatype Result = Done(tree: Tree) | IllegalStore | Inconsistent | AssertionFailed

  function Marked(t: Tree, size: nat, state: MemState, status: Status): Tree
    requires t.Node?
  {
    t.(reallyAllocated := size, state := state, status := status, memSetTo := if state.Memset? then 0 else t.memSetTo)
  }

  function OnLeft(t: Tree, r: Result): Result
    requires t.Node?
  {
    match r
    case Done(child) => Done(t.(left := child))
    case other => other
  }

  function OnRight(t: Tree, r: Result): Result
    requires t.Node?
  {
    match r
    case Done(child) => Done(t.(right := child))
    case other => other
  }

  /** Positions are relative to the node. */
  function Allocate(tree: Tree, chunk: nat, k: nat, where: nat, size: nat, state: MemState, status: Status): Result
    requires where < Len(chunk, k)
    decreases k
  {
    var t := Force(tree);
    var half := Len(chunk, k) / 2;
    if size > Len(chunk, k) then AssertionFailed
    else if k == 0 || (where == 0 && half < size) then Done(Marked(t, size, state, status))
    else
      var d := ForceChildrenAndDeriveState(t);
      if where < half then OnLeft(d, Allocate(d.left, chunk, k - 1, where, size, state, status))
      else OnRight(d, Allocate(d.right, chunk, k - 1, where - half, size, state, status))
  }

  // ---------- storing ----------

  datatype Check = Passed(didAlloc: bool) | Refused | Twice

  /** A store must lie within one allocated node. */
  function CheckAllocation(t: Tree, where: nat, size: nat, didAlloc: bool): Check
    requires t.Node?
  {
    if t.status.Unallocated? then Passed(didAlloc)
    else if didAlloc then Twice
    else if where + size > t.reallyAllocated then Refused
    else Passed(true)
  }

  function NewChunk(chunk: nat): seq<Cell> {
    seq(chunk, _ => Garbage)
  }

  function Bytes(data: seq<Byte>): (r: seq<Cell>)
    ensures |r| == |data| && forall i | 0 <= i < |data| :: r[i] == Known(data[i])
  {
    seq(|data|, i requires 0 <= i < |data| => Known(data[i]))
  }

  function StoreInChunk(t: Tree, chunk: nat, where: nat, data: seq<Byte>): Tree
    requires t.Node? && where + |data| <= chunk && (t.chunk == [] || |t.chunk| == chunk)
  {
    var cells := if t.chunk == [] then NewChunk(chunk) else t.chunk;
    t.(state := Unknown, chunk := cells[..where] + Bytes(data) + cells[where + |data|..])
  }

  /** Chunks have the size of a chunk once they are there. */
  predicate Sized(t: Tree, chunk: nat) {
    t.Node? ==> (t.chunk == [] || |t.chunk| == chunk) && Sized(t.left, chunk) && Sized(t.right, chunk)
  }

  /** A store that crosses the middle of a node is split there. */
  function Store(tree: Tree, chunk: nat, k: nat, where: nat, data: seq<Byte>, didAlloc: bool): Result
    requires chunk > 0 && Sized(tree, chunk) && data != [] && where + |data| <= Len(chunk, k)
    decreases k
  {
    var t := Force(tree);
    match CheckAllocation(t, where, |data|, didAlloc)
    case Refused => IllegalStore
    case Twice => Inconsistent
    case Passed(alloc) =>
      if k == 0 then
        if alloc then Done(StoreInChunk(t, chunk, where, data)) else IllegalStore
      else
        var half := Len(chunk, k) / 2;
        var d := ForceChildrenAndDeriveState(t);
        if where < half < where + |data| then
          var n := half - where;
          match OnLeft(d, Store(d.left, chunk, k - 1, where, data[..n], alloc))
          case Done(e) => OnRight(e, Store(d.right, chunk, k - 1, 0, data[n..], alloc))
          case other => other
        else if where < half then OnLeft(d, Store(d.left, chunk, k - 1, where, data, alloc))
        else OnRight(d, Store(d.right, chunk, k - 1, where - half, data, alloc))
  }

  // ---------- loading ----------

  /** What the tree answers at a place: nothing there, a state that covers it, or the bytes
    * of the chunk from there on. */
  datatype Answer = IllegalLoad | Covered(state: MemState, fill: Byte) | Data(cells: seq<Cell>)

  function Get(t: Tree, chunk: nat, k: nat, where: nat): Answer
    requires where < Len(chunk, k) && Sized(t, chunk)
    decreases k
  {
    if t.Nil? then IllegalLoad
    else if !t.state.Unknown? then Covered(t.state, t.memSetTo)
    else if k == 0 then Data(if t.chunk == [] then [] else t.chunk[where..])
    else
      var half := Len(chunk, k) / 2;
      if where < half then Get(t.left, chunk, k - 1, where) else Get(t.right, chunk, k - 1, where - half)
  }

  // ---------- memory as a function of the place ----------

  function CellAt(t: Tree, chunk: nat, k: nat, p: nat): Cell
    requires p < Len(chunk, k) && Sized(t, chunk)
    decreases k
  {
    if t.Nil? then Absent
    else if t.state.Memset? then Known(t.memSetTo)
    else if t.state.Uninit? then Unwritten
    else if k == 0 then if t.chunk == [] then Absent else t.chunk[p]
    else
      var half := Len(chunk, k) / 2;
      if p < half then CellAt(t.left, chunk, k - 1, p) else CellAt(t.right, chunk, k - 1, p - half)
  }

  /** The chunk of this place has been stored to since it was last filled. */
  predicate HoldsBytes(t: Tree, chunk: nat, k: nat, p: nat)
    requires p < Len(chunk, k)
    decreases k
  {
    && t.Node? && t.state.Unknown?
    && if k == 0 then t.chunk != []
       else
         var half := Len(chunk, k) / 2;
         if p < half then HoldsBytes(t.left, chunk, k - 1, p) else HoldsBytes(t.right, chunk, k - 1, p - half)
  }

  /** The place lies in an allocated block. */
  predicate Writable(t: Tree, chunk: nat, k: nat, p: nat)
    requires p < Len(chunk, k)
    decreases k
  {
    t.Node? &&
    if !t.status.Unallocated? then p < t.reallyAllocated
    else if k == 0 then false
    else
      var half := Len(chunk, k) / 2;
      if p < half then Writable(t.left, chunk, k - 1, p) else Writable(t.right, chunk, k - 1, p - half)
  }

  /** The range reaches into the chunk of the place. */
  predicate Touched(chunk: nat, k: nat, where: nat, size: nat, p: nat)
    requires chunk > 0 && size > 0 && where + size <= Len(chunk, k) && p < Len(chunk, k)
    decreases k
  {
    k == 0 ||
    var half := Len(chunk, k) / 2;
    if p < half then
      where < half && Touched(chunk, k - 1, where, (if where + size > half then half - where else size), p)
    else
      where + size > half &&
      (if where < half then Touched(chunk, k - 1, 0, where + size - half, p - half)
       else Touched(chunk, k - 1, where - half, size, p - half))
  }

  /** A node with a state of its own has nothing below it and no bytes. */
  predicate Clean(t: Tree) {
    t.Node? ==>
      (!t.state.Unknown? ==> t.left.Nil? && t.right.Nil? && t.chunk == []) && Clean(t.left) && Clean(t.right)
  }

  predicate NoneAllocated(t: Tree) {
    t.Node? ==> t.status.Unallocated? && NoneAllocated(t.left) && NoneAllocated(t.right)
  }

  /** No allocated node lies inside another. */
  predicate NotNested(t: Tree) {
    t.Node? ==>
      if t.status.Unallocated? then NotNested(t.left) && NotNested(t.right)
      else NoneAllocated(t.left) && NoneAllocated(t.right)
  }

  predicate Valid(t: Tree, chunk: nat) {
    chunk > 0 && Sized(t, chunk) && Clean(t) && NotNested(t)
  }

  // ---------- proofs ----------

  lemma {:induction false} NoneIsNotNested(t: Tree)
    requires NoneAllocated(t)
    ensures NotNested(t)
  {
    if t.Node? {
      NoneIsNotNested(t.left);
      NoneIsNotNested(t.right);
    }
  }

  /** Creating children changes neither the contents nor what is allocated. */
  lemma DeriveKeeps(tree: Tree, chunk: nat, k: nat, p: nat)
    requires Sized(tree, chunk) && Clean(tree) && k > 0 && p < Len(chunk, k)
    ensures var d := ForceChildrenAndDeriveState(Force(tree));
      && Sized(d, chunk) && Clean(d)
      && CellAt(d, chunk, k, p) == CellAt(tree, chunk, k, p)
      && HoldsBytes(d, chunk, k, p) == HoldsBytes(tree, chunk, k, p)
      && Writable(d, chunk, k, p) == Writable(tree, chunk, k, p)
      && (NotNested(tree) ==> NotNested(d))
      && (NoneAllocated(tree) ==> NoneAllocated(d))
  {
    var t := Force(tree);
    var d := ForceChildrenAndDeriveState(t);
    var half := Len(chunk, k) / 2;
    assert Len(chunk, k) == 2 * Len(chunk, k - 1);
    EmptyChild(t, t.left, chunk, k - 1, if p < half then p else p - half);
    EmptyChild(t, t.right, chunk, k - 1, if p < half then p else p - half);
  }

  lemma EmptyChild(t: Tree, child: Tree, chunk: nat, k: nat, p: nat)
    requires t.Node? && p < Len(chunk, k) && Sized(child, chunk)
    ensures Sized(Child(child, t), chunk)
    ensures child.Nil? ==>
      var c := Child(child, t);
      && CellAt(c, chunk, k, p) ==
          (match t.state case Memset => Known(t.memSetTo) case Uninit => Unwritten case Unknown => Absent)
      && !HoldsBytes(c, chunk, k, p) && !Writable(c, chunk, k, p)
      && NoneAllocated(c) && NotNested(c) && Clean(c)
  {
  }

  // ---------- the effect of a store ----------

  /** Below an allocated node nothing is allocated. */
  predicate Owned(t: Tree, didAlloc: bool) {
    if didAlloc then NoneAllocated(t) else NotNested(t)
  }

  /** What a store leaves at a place: its data; garbage in the rest of a chunk that had no
    * bytes; elsewhere what was there. */
  function Stored(t: Tree, chunk: nat, k: nat, where: nat, data: seq<Byte>, p: nat): Cell
    requires chunk > 0 && Sized(t, chunk) && data != [] && where + |data| <= Len(chunk, k) && p < Len(chunk, k)
  {
    if where <= p < where + |data| then Known(data[p - where])
    else if Touched(chunk, k, where, |data|, p) && !HoldsBytes(t, chunk, k, p) then Garbage
    else CellAt(t, chunk, k, p)
  }

  /** The parts of a stored range below the middle of a node and from there on. */
  function LeftPart(data: seq<Byte>, where: nat, half: nat): seq<Byte>
    requires where < half
  {
    if where + |data| > half then data[..half - where] else data
  }

  function RightPart(data: seq<Byte>, where: nat, half: nat): seq<Byte>
    requires where + |data| > half
  {
    if where < half then data[half - where..] else data
  }

  function RightStart(where: nat, half: nat): nat {
    if where < half then 0 else where - half
  }

  /** Below the top, a store is a store into each half that the range reaches. */
  lemma StoreBelow(tree: Tree, chunk: nat, k: nat, where: nat, data: seq<Byte>, didAlloc: bool)
    requires chunk > 0 && k > 0 && Sized(tree, chunk) && data != [] && where + |data| <= Len(chunk, k)
    requires Store(tree, chunk, k, where, data, didAlloc).Done?
    ensures var t := Force(tree);
      var half := Len(chunk, k) / 2;
      var d := ForceChildrenAndDeriveState(t);
      var alloc := CheckAllocation(t, where, |data|, didAlloc);
      var r := Store(tree, chunk, k, where, data, didAlloc).tree;
      && alloc.Passed? && Sized(d.left, chunk) && Sized(d.right, chunk)
      && r == d.(left := r.left, right := r.right)
      && (if where < half then
            Store(d.left, chunk, k - 1, where, LeftPart(data, where, half), alloc.didAlloc) == Done(r.left)
          else r.left == d.left)
      && (if where + |data| > half then
            Store(d.right, chunk, k - 1, RightStart(where, half), RightPart(data, where, half), alloc.didAlloc)
              == Done(r.right)
          else r.right == d.right)
  {
  }

  /** The check turns what is known of a node into what is known of its children. */
  lemma OwnedBelow(t: Tree, where: nat, size: nat, didAlloc: bool)
    requires t.Node? && Owned(t, didAlloc) && CheckAllocation(t, where, size, didAlloc).Passed?
    ensures var d := ForceChildrenAndDeriveState(t);
      var alloc := CheckAllocation(t, where, size, didAlloc).didAlloc;
      && Owned(d.left, alloc) && Owned(d.right, alloc)
      && (alloc == (didAlloc || !t.status.Unallocated?))
  {
  }

  /** The node above its two halves after a store, and what the store does in them. */
  datatype Step = Step(left: Tree, right: Tree, alloc: bool)

  function StepOf(tree: Tree, where: nat, size: nat, didAlloc: bool): Step {
    var d := ForceChildrenAndDeriveState(Force(tree));
    Step(d.left, d.right, didAlloc || !Force(tree).status.Unallocated?)
  }

  lemma StoreDescends(tree: Tree, chunk: nat, k: nat, where: nat, data: seq<Byte>, didAlloc: bool, r: Tree)
    requires chunk > 0 && k > 0 && Sized(tree, chunk) && Clean(tree) && Owned(tree, didAlloc)
    requires data != [] && where + |data| <= Len(chunk, k)
    requires Store(tree, chunk, k, where, data, didAlloc) == Done(r)
    ensures var half := Len(chunk, k) / 2;
      var s := StepOf(tree, where, |data|, didAlloc);
      && Sized(s.left, chunk) && Clean(s.left) && Owned(s.left, s.alloc)
      && Sized(s.right, chunk) && Clean(s.right) && Owned(s.right, s.alloc)
      && r.Node? && r.state.Unknown? && r.chunk == Force(tree).chunk
      && r.status == Force(tree).status && r.reallyAllocated == Force(tree).reallyAllocated
      && (if where < half then Store(s.left, chunk, k - 1, where, LeftPart(data, where, half), s.alloc) == Done(r.left)
          else r.left == s.left)
      && (if where + |data| > half then
            Store(s.right, chunk, k - 1, RightStart(where, half), RightPart(data, where, half), s.alloc)
              == Done(r.right)
          else r.right == s.right)
  {
    StoreBelow(tree, chunk, k, where, data, didAlloc);
    DeriveKeeps(tree, chunk, k, 0);
    OwnedBelow(Force(tree), where, |data|, didAlloc);
  }

  lemma ShapeOfHalves(tree: Tree, r: Tree, chunk: nat, didAlloc: bool)
    requires Sized(tree, chunk) && Owned(tree, didAlloc)
    requires r.Node? && r.state.Unknown? && r.chunk == Force(tree).chunk && r.status == Force(tree).status
    requires var alloc := didAlloc || !r.status.Unallocated?;
      && Sized(r.left, chunk) && Clean(r.left) && Owned(r.left, alloc)
      && Sized(r.right, chunk) && Clean(r.right) && Owned(r.right, alloc)
    ensures Sized(r, chunk) && Clean(r) && Owned(r, didAlloc)
  {
  }

  lemma ChunkKeepsShape(tree: Tree, chunk: nat, where: nat, data: seq<Byte>, didAlloc: bool, r: Tree)
    requires chunk > 0 && Sized(tree, chunk) && Clean(tree) && Owned(tree, didAlloc)
    requires data != [] && where + |data| <= chunk
    requires Store(tree, chunk, 0, where, data, didAlloc) == Done(r)
    ensures r.Node? && Sized(r, chunk) && Clean(r) && Owned(r, didAlloc)
  {
  }

  /** A store keeps the shape of the tree and what is allocated. */
  lemma {:induction false} StoreKeepsShape(tree: Tree, chunk: nat, k: nat, where: nat, data: seq<Byte>,
                                           didAlloc: bool, r: Tree)
    requires chunk > 0 && Sized(tree, chunk) && Clean(tree) && Owned(tree, didAlloc)
    requires data != [] && where + |data| <= Len(chunk, k)
    requires Store(tree, chunk, k, where, data, didAlloc) == Done(r)
    ensures r.Node? && Sized(r, chunk) && Clean(r) && Owned(r, didAlloc)
    decreases k, 1
  {
    if k == 0 {
      ChunkKeepsShape(tree, chunk, where, data, didAlloc, r);
    } else {
      StoreDescends(tree, chunk, k, where, data, didAlloc, r);
      LeftKeepsShape(tree, chunk, k, where, data, didAlloc, r);
      RightKeepsShape(tree, chunk, k, where, data, didAlloc, r);
      ShapeOfHalves(tree, r, chunk, didAlloc);
    }
  }

  ghost predicate Shaped(t: Tree, chunk: nat, didAlloc: bool) {
    Sized(t, chunk) && Clean(t) && Owned(t, didAlloc)
  }

  lemma {:induction false} LeftKeepsShape(tree: Tree, chunk: nat, k: nat, where: nat, data: seq<Byte>,
                                          didAlloc: bool, r: Tree)
    requires chunk > 0 && k > 0 && Sized(tree, chunk) && Clean(tree) && Owned(tree, didAlloc)
    requires data != [] && where + |data| <= Len(chunk, k)
    requires Store(tree, chunk, k, where, data, didAlloc) == Done(r)
    ensures r.Node? && Shaped(r.left, chunk, StepOf(tree, where, |data|, didAlloc).alloc)
    decreases k, 0
  {
    var half, s := Len(chunk, k) / 2, StepOf(tree, where, |data|, didAlloc);
    StoreOnLeft(tree, chunk, k, where, data, didAlloc, r);
    if where < half {
      StoreKeepsShape(s.left, chunk, k - 1, where, LeftPart(data, where, half), s.alloc, r.left);
    }
  }

  lemma {:induction false} RightKeepsShape(tree: Tree, chunk: nat, k: nat, where: nat, data: seq<Byte>,
                                           didAlloc: bool, r: Tree)
    requires chunk > 0 && k > 0 && Sized(tree, chunk) && Clean(tree) && Owned(tree, didAlloc)
    requires data != [] && where + |data| <= Len(chunk, k)
    requires Store(tree, chunk, k, where, data, didAlloc) == Done(r)
    ensures r.Node? && Shaped(r.right, chunk, StepOf(tree, where, |data|, didAlloc).alloc)
    decreases k, 0
  {
    var half, s := Len(chunk, k) / 2, StepOf(tree, where, |data|, didAlloc);
    StoreOnRight(tree, chunk, k, where, data, didAlloc, r);
    if where + |data| > half {
      StoreKeepsShape(s.right, chunk, k - 1, RightStart(where, half), RightPart(data, where, half), s.alloc, r.right);
    }
  }

  /** What a store makes of the left child. */
  lemma StoreOnLeft(tree: Tree, chunk: nat, k: nat, where: nat, data: seq<Byte>, didAlloc: bool, r: Tree)
    requires chunk > 0 && k > 0 && Sized(tree, chunk) && Clean(tree) && Owned(tree, didAlloc)
    requires data != [] && where + |data| <= Len(chunk, k)
    requires Store(tree, chunk, k, where, data, didAlloc) == Done(r)
    ensures var half, s := Len(chunk, k) / 2, StepOf(tree, where, |data|, didAlloc);
      && Shaped(s.left, chunk, s.alloc) && r.Node? && r.state.Unknown?
      && if where < half then Store(s.left, chunk, k - 1, where, LeftPart(data, where, half), s.alloc) == Done(r.left)
         else r.left == s.left
  {
    StoreDescends(tree, chunk, k, where, data, didAlloc, r);
  }

  lemma StoreOnRight(tree: Tree, chunk: nat, k: nat, where: nat, data: seq<Byte>, didAlloc: bool, r: Tree)
    requires chunk > 0 && k > 0 && Sized(tree, chunk) && Clean(tree) && Owned(tree, didAlloc)
    requires data != [] && where + |data| <= Len(chunk, k)
    requires Store(tree, chunk, k, where, data, didAlloc) == Done(r)
    ensures var half, s := Len(chunk, k) / 2, StepOf(tree, where, |data|, didAlloc);
      && Shaped(s.right, chunk, s.alloc) && r.Node? && r.state.Unknown?
      && if where + |data| > half then
           Store(s.right, chunk, k - 1, RightStart(where, half), RightPart(data, where, half), s.alloc)
             == Done(r.right)
         else r.right == s.right
  {
    StoreDescends(tree, chunk, k, where, data, didAlloc, r);
  }

  /** What is stored in the left half of a node is what is stored in the left child. */
  lemma StoredOnLeft(tree: Tree, chunk: nat, k: nat, where: nat, data: seq<Byte>, p: nat)
    requires chunk > 0 && k > 0 && Sized(tree, chunk) && Clean(tree)
    requires data != [] && where + |data| <= Len(chunk, k) && p < Len(chunk, k) / 2
    ensures var left, half := ForceChildrenAndDeriveState(Force(tree)).left, Len(chunk, k) / 2;
      && Sized(left, chunk)
      && Stored(tree, chunk, k, where, data, p) ==
          (if where < half then Stored(left, chunk, k - 1, where, LeftPart(data, where, half), p)
           else CellAt(left, chunk, k - 1, p))
  {
    DeriveKeeps(tree, chunk, k, p);
    if where < Len(chunk, k) / 2 {
      TouchedOnLeft(chunk, k, where, data, p);
    }
  }

  lemma TouchedOnLeft(chunk: nat, k: nat, where: nat, data: seq<Byte>, p: nat)
    requires chunk > 0 && k > 0 && data != [] && where + |data| <= Len(chunk, k)
    requires p < Len(chunk, k) / 2 && where < Len(chunk, k) / 2
    ensures Touched(chunk, k, where, |data|, p)
      == Touched(chunk, k - 1, where, |LeftPart(data, where, Len(chunk, k) / 2)|, p)
  {
  }

  lemma StoredOnRight(tree: Tree, chunk: nat, k: nat, where: nat, data: seq<Byte>, p: nat)
    requires chunk > 0 && k > 0 && Sized(tree, chunk) && Clean(tree)
    requires data != [] && where + |data| <= Len(chunk, k) && Len(chunk, k) / 2 <= p < Len(chunk, k)
    ensures var right, half := ForceChildrenAndDeriveState(Force(tree)).right, Len(chunk, k) / 2;
      && Sized(right, chunk)
      && Stored(tree, chunk, k, where, data, p) ==
          (if where + |data| > half then
             Stored(right, chunk, k - 1, RightStart(where, half), RightPart(data, where, half), p - half)
           else CellAt(right, chunk, k - 1, p - half))
  {
    var half := Len(chunk, k) / 2;
    DeriveKeeps(tree, chunk, k, p);
    if where + |data| > half {
      DataOnRight(data, where, half, p);
      TouchedOnRight(chunk, k, where, data, p);
    }
  }

  lemma DataOnRight(data: seq<Byte>, where: nat, half: nat, p: nat)
    requires data != [] && where + |data| > half && p >= half
    ensures var start, part := RightStart(where, half), RightPart(data, where, half);
      && start + |part| == where + |data| - half && |part| > 0
      && (where <= p < where + |data| <==> start <= p - half < start + |part|)
      && (where <= p < where + |data| ==> data[p - where] == part[p - half - start])
  {
  }

  lemma TouchedOnRight(chunk: nat, k: nat, where: nat, data: seq<Byte>, p: nat)
    requires chunk > 0 && k > 0 && data != [] && where + |data| <= Len(chunk, k)
    requires Len(chunk, k) / 2 <= p < Len(chunk, k) && where + |data| > Len(chunk, k) / 2
    ensures var half := Len(chunk, k) / 2;
      Touched(chunk, k, where, |data|, p)
      == Touched(chunk, k - 1, RightStart(where, half), |RightPart(data, where, half)|, p - half)
  {
  }

  /** The contents of memory after a store, place by place. */
  lemma {:induction false} StoreEffect(tree: Tree, chunk: nat, k: nat, where: nat, data: seq<Byte>, didAlloc: bool,
                                       p: nat, r: Tree)
    requires chunk > 0 && Sized(tree, chunk) && Clean(tree) && Owned(tree, didAlloc)
    requires data != [] && where + |data| <= Len(chunk, k) && p < Len(chunk, k)
    requires Store(tree, chunk, k, where, data, didAlloc) == Done(r)
    ensures Sized(r, chunk) && CellAt(r, chunk, k, p) == Stored(tree, chunk, k, where, data, p)
    decreases k, 1
  {
    StoreKeepsShape(tree, chunk, k, where, data, didAlloc, r);
    if k == 0 {
      StoreInChunkEffect(tree, chunk, where, data, didAlloc, p);
    } else if p < Len(chunk, k) / 2 {
      EffectOnLeft(tree, chunk, k, where, data, didAlloc, p, r);
    } else {
      EffectOnRight(tree, chunk, k, where, data, didAlloc, p, r);
    }
  }

  lemma {:induction false} EffectOnLeft(tree: Tree, chunk: nat, k: nat, where: nat, data: seq<Byte>, didAlloc: bool,
                                        p: nat, r: Tree)
    requires chunk > 0 && k > 0 && Sized(tree, chunk) && Clean(tree) && Owned(tree, didAlloc)
    requires data != [] && where + |data| <= Len(chunk, k) && p < Len(chunk, k) / 2
    requires Store(tree, chunk, k, where, data, didAlloc) == Done(r) && Sized(r, chunk)
    ensures CellAt(r, chunk, k, p) == Stored(tree, chunk, k, where, data, p)
    decreases k, 0
  {
    var half, s := Len(chunk, k) / 2, StepOf(tree, where, |data|, didAlloc);
    StoreOnLeft(tree, chunk, k, where, data, didAlloc, r);
    if where < half {
      StoreEffect(s.left, chunk, k - 1, where, LeftPart(data, where, half), s.alloc, p, r.left);
    }
    FromLeft(tree, chunk, k, where, data, p, s.left, r);
  }

  lemma FromLeft(tree: Tree, chunk: nat, k: nat, where: nat, data: seq<Byte>, p: nat, left: Tree, r: Tree)
    requires chunk > 0 && k > 0 && Sized(tree, chunk) && Clean(tree)
    requires data != [] && where + |data| <= Len(chunk, k) && p < Len(chunk, k) / 2
    requires left == ForceChildrenAndDeriveState(Force(tree)).left && Sized(left, chunk)
    requires r.Node? && r.state.Unknown? && Sized(r, chunk)
    requires var half := Len(chunk, k) / 2;
      CellAt(r.left, chunk, k - 1, p) ==
        if where < half then Stored(left, chunk, k - 1, where, LeftPart(data, where, half), p)
        else CellAt(left, chunk, k - 1, p)
    ensures CellAt(r, chunk, k, p) == Stored(tree, chunk, k, where, data, p)
  {
    StoredOnLeft(tree, chunk, k, where, data, p);
  }

  lemma FromRight(tree: Tree, chunk: nat, k: nat, where: nat, data: seq<Byte>, p: nat, right: Tree, r: Tree)
    requires chunk > 0 && k > 0 && Sized(tree, chunk) && Clean(tree)
    requires data != [] && where + |data| <= Len(chunk, k) && Len(chunk, k) / 2 <= p < Len(chunk, k)
    requires right == ForceChildrenAndDeriveState(Force(tree)).right && Sized(right, chunk)
    requires r.Node? && r.state.Unknown? && Sized(r, chunk)
    requires var half := Len(chunk, k) / 2;
      CellAt(r.right, chunk, k - 1, p - half) ==
        if where + |data| > half then
          Stored(right, chunk, k - 1, RightStart(where, half), RightPart(data, where, half), p - half)
        else CellAt(right, chunk, k - 1, p - half)
    ensures CellAt(r, chunk, k, p) == Stored(tree, chunk, k, where, data, p)
  {
    StoredOnRight(tree, chunk, k, where, data, p);
  }

  lemma {:induction false} EffectOnRight(tree: Tree, chunk: nat, k: nat, where: nat, data: seq<Byte>, didAlloc: bool,
                                         p: nat, r: Tree)
    requires chunk > 0 && k > 0 && Sized(tree, chunk) && Clean(tree) && Owned(tree, didAlloc)
    requires data != [] && where + |data| <= Len(chunk, k) && Len(chunk, k) / 2 <= p < Len(chunk, k)
    requires Store(tree, chunk, k, where, data, didAlloc) == Done(r) && Sized(r, chunk)
    ensures CellAt(r, chunk, k, p) == Stored(tree, chunk, k, where, data, p)
    decreases k, 0
  {
    var half, s := Len(chunk, k) / 2, StepOf(tree, where, |data|, didAlloc);
    StoreOnRight(tree, chunk, k, where, data, didAlloc, r);
    if where + |data| > half {
      StoreEffect(s.right, chunk, k - 1, RightStart(where, half), RightPart(data, where, half), s.alloc,
                  p - half, r.right);
    }
    FromRight(tree, chunk, k, where, data, p, s.right, r);
  }

  lemma WritableOfHalves(tree: Tree, r: Tree, chunk: nat, k: nat, p: nat)
    requires k > 0 && Sized(tree, chunk) && Clean(tree) && p < Len(chunk, k)
    requires r.Node? && r.status == Force(tree).status && r.reallyAllocated == Force(tree).reallyAllocated
    requires var d, half := ForceChildrenAndDeriveState(Force(tree)), Len(chunk, k) / 2;
      && (p < half ==> Writable(r.left, chunk, k - 1, p) == Writable(d.left, chunk, k - 1, p))
      && (p >= half ==> Writable(r.right, chunk, k - 1, p - half) == Writable(d.right, chunk, k - 1, p - half))
    ensures Writable(r, chunk, k, p) == Writable(tree, chunk, k, p)
  {
    DeriveKeeps(tree, chunk, k, p);
  }

  /** A store changes nothing about what is allocated. */
  lemma {:induction false} StoreKeepsWritable(tree: Tree, chunk: nat, k: nat, where: nat, data: seq<Byte>,
                                              didAlloc: bool, p: nat, r: Tree)
    requires chunk > 0 && Sized(tree, chunk) && Clean(tree) && Owned(tree, didAlloc)
    requires data != [] && where + |data| <= Len(chunk, k) && p < Len(chunk, k)
    requires Store(tree, chunk, k, where, data, didAlloc) == Done(r)
    ensures Writable(r, chunk, k, p) == Writable(tree, chunk, k, p)
    decreases k, 1
  {
    if k > 0 {
      StoreDescends(tree, chunk, k, where, data, didAlloc, r);
      if p < Len(chunk, k) / 2 {
        LeftKeepsWritable(tree, chunk, k, where, data, didAlloc, p, r);
      } else {
        RightKeepsWritable(tree, chunk, k, where, data, didAlloc, p, r);
      }
      WritableOfHalves(tree, r, chunk, k, p);
    }
  }

  lemma {:induction false} LeftKeepsWritable(tree: Tree, chunk: nat, k: nat, where: nat, data: seq<Byte>,
                                             didAlloc: bool, p: nat, r: Tree)
    requires chunk > 0 && k > 0 && Sized(tree, chunk) && Clean(tree) && Owned(tree, didAlloc)
    requires data != [] && where + |data| <= Len(chunk, k) && p < Len(chunk, k) / 2
    requires Store(tree, chunk, k, where, data, didAlloc) == Done(r) && r.Node?
    ensures Writable(r.left, chunk, k - 1, p)
      == Writable(ForceChildrenAndDeriveState(Force(tree)).left, chunk, k - 1, p)
    decreases k, 0
  {
    var half, s := Len(chunk, k) / 2, StepOf(tree, where, |data|, didAlloc);
    StoreOnLeft(tree, chunk, k, where, data, didAlloc, r);
    if where < half {
      StoreKeepsWritable(s.left, chunk, k - 1, where, LeftPart(data, where, half), s.alloc, p, r.left);
    }
  }

  lemma {:induction false} RightKeepsWritable(tree: Tree, chunk: nat, k: nat, where: nat, data: seq<Byte>,
                                              didAlloc: bool, p: nat, r: Tree)
    requires chunk > 0 && k > 0 && Sized(tree, chunk) && Clean(tree) && Owned(tree, didAlloc)
    requires data != [] && where + |data| <= Len(chunk, k) && Len(chunk, k) / 2 <= p < Len(chunk, k)
    requires Store(tree, chunk, k, where, data, didAlloc) == Done(r) && r.Node?
    ensures Writable(r.right, chunk, k - 1, p - Len(chunk, k) / 2)
      == Writable(ForceChildrenAndDeriveState(Force(tree)).right, chunk, k - 1, p - Len(chunk, k) / 2)
    decreases k, 0
  {
    var half, s := Len(chunk, k) / 2, StepOf(tree, where, |data|, didAlloc);
    StoreOnRight(tree, chunk, k, where, data, didAlloc, r);
    if where + |data| > half {
      StoreKeepsWritable(s.right, chunk, k - 1, RightStart(where, half), RightPart(data, where, half), s.alloc,
                         p - half, r.right);
    }
  }

  lemma StoreInChunkEffect(tree: Tree, chunk: nat, where: nat, data: seq<Byte>, didAlloc: bool, p: nat)
    requires chunk > 0 && Clean(tree) && Sized(tree, chunk) && data != [] && where + |data| <= chunk && p < chunk
    requires Store(tree, chunk, 0, where, data, didAlloc).Done?
    ensures var r := Store(tree, chunk, 0, where, data, didAlloc).tree;
      Sized(r, chunk) && CellAt(r, chunk, 0, p) == Stored(tree, chunk, 0, where, data, p)
  {
    var t := Force(tree);
    var r := StoreInChunk(t, chunk, where, data);
    assert r.chunk[p] ==
      if where <= p < where + |data| then Known(data[p - where]) else if t.chunk == [] then Garbage else t.chunk[p];
  }

  // ---------- when a store succeeds ----------

  ghost predicate AllWritable(t: Tree, chunk: nat, k: nat, where: nat, size: nat)
    requires where + size <= Len(chunk, k)
  {
    forall p | where <= p < where + size :: Writable(t, chunk, k, p)
  }

  /** Where the check passes, a store succeeds if its parts in both halves do. */
  lemma StoreInHalves(tree: Tree, chunk: nat, k: nat, where: nat, data: seq<Byte>, didAlloc: bool)
    requires chunk > 0 && k > 0 && Sized(tree, chunk) && Clean(tree)
    requires data != [] && where + |data| <= Len(chunk, k)
    requires CheckAllocation(Force(tree), where, |data|, didAlloc).Passed?
    ensures var d, half := ForceChildrenAndDeriveState(Force(tree)), Len(chunk, k) / 2;
      var alloc := CheckAllocation(Force(tree), where, |data|, didAlloc).didAlloc;
      && Sized(d, chunk) && Clean(d)
      && (Store(tree, chunk, k, where, data, didAlloc).Done? <==>
            && (where < half ==> Store(d.left, chunk, k - 1, where, LeftPart(data, where, half), alloc).Done?)
            && (where + |data| > half ==>
                  Store(d.right, chunk, k - 1, RightStart(where, half), RightPart(data, where, half), alloc).Done?))
  {
    DeriveKeeps(tree, chunk, k, 0);
  }

  lemma {:induction false} OwnedStoreSucceeds(tree: Tree, chunk: nat, k: nat, where: nat, data: seq<Byte>)
    requires chunk > 0 && Sized(tree, chunk) && Clean(tree) && NoneAllocated(tree)
    requires data != [] && where + |data| <= Len(chunk, k)
    ensures Store(tree, chunk, k, where, data, true).Done?
    decreases k, 1
  {
    if k > 0 {
      DeriveKeeps(tree, chunk, k, 0);
      HalvesSucceed(tree, chunk, k, where, data, true);
    }
  }

  lemma {:induction false} HalvesSucceed(tree: Tree, chunk: nat, k: nat, where: nat, data: seq<Byte>, didAlloc: bool)
    requires chunk > 0 && k > 0 && Sized(tree, chunk) && Clean(tree)
    requires data != [] && where + |data| <= Len(chunk, k)
    requires CheckAllocation(Force(tree), where, |data|, didAlloc) == Passed(true)
    requires var d := ForceChildrenAndDeriveState(Force(tree)); NoneAllocated(d.left) && NoneAllocated(d.right)
    ensures Store(tree, chunk, k, where, data, didAlloc).Done?
    decreases k, 0
  {
    var d, half := ForceChildrenAndDeriveState(Force(tree)), Len(chunk, k) / 2;
    StoreInHalves(tree, chunk, k, where, data, didAlloc);
    if where < half {
      OwnedStoreSucceeds(d.left, chunk, k - 1, where, LeftPart(data, where, half));
    }
    if where + |data| > half {
      OwnedStoreSucceeds(d.right, chunk, k - 1, RightStart(where, half), RightPart(data, where, half));
    }
  }

  /** A range is writable if its parts in both halves are. */
  lemma WritableHalves(tree: Tree, chunk: nat, k: nat, where: nat, size: nat)
    requires chunk > 0 && k > 0 && Sized(tree, chunk) && Clean(tree) && size > 0 && where + size <= Len(chunk, k)
    requires Force(tree).status.Unallocated?
    ensures var d, half := ForceChildrenAndDeriveState(Force(tree)), Len(chunk, k) / 2;
      var n := if where + size > half then half - where else size;
      AllWritable(tree, chunk, k, where, size) <==>
        && (where < half ==> AllWritable(d.left, chunk, k - 1, where, n))
        && (where + size > half ==>
              AllWritable(d.right, chunk, k - 1, RightStart(where, half),
                          where + size - half - RightStart(where, half)))
  {
    var d, half := ForceChildrenAndDeriveState(Force(tree)), Len(chunk, k) / 2;
    forall p | where <= p < where + size ensures InHalves(tree, d.left, d.right, chunk, k, p) {
      DeriveKeeps(tree, chunk, k, p);
    }
    AllInHalves(tree, d.left, d.right, chunk, k, where, size);
  }

  ghost predicate InHalves(tree: Tree, left: Tree, right: Tree, chunk: nat, k: nat, p: nat)
    requires k > 0 && p < Len(chunk, k)
  {
    var half := Len(chunk, k) / 2;
    Writable(tree, chunk, k, p) ==
      (if p < half then Writable(left, chunk, k - 1, p) else Writable(right, chunk, k - 1, p - half))
  }

  lemma AllInHalves(tree: Tree, left: Tree, right: Tree, chunk: nat, k: nat, where: nat, size: nat)
    requires k > 0 && size > 0 && where + size <= Len(chunk, k)
    requires forall p | where <= p < where + size :: InHalves(tree, left, right, chunk, k, p)
    ensures var half := Len(chunk, k) / 2;
      var n := if where + size > half then half - where else size;
      AllWritable(tree, chunk, k, where, size) <==>
        && (where < half ==> AllWritable(left, chunk, k - 1, where, n))
        && (where + size > half ==>
              AllWritable(right, chunk, k - 1, RightStart(where, half), where + size - half - RightStart(where, half)))
  {
    var half := Len(chunk, k) / 2;
    if where + size <= half {
      AllOnLeft(tree, left, right, chunk, k, where, size);
    } else if where >= half {
      AllOnRight(tree, left, right, chunk, k, where, size);
    } else {
      AllOnLeft(tree, left, right, chunk, k, where, half - where);
      AllOnRight(tree, left, right, chunk, k, half, where + size - half);
      AllOfBoth(tree, chunk, k, where, half - where, where + size - half);
    }
  }

  lemma AllOfBoth(tree: Tree, chunk: nat, k: nat, where: nat, first: nat, second: nat)
    requires where + first + second <= Len(chunk, k)
    ensures AllWritable(tree, chunk, k, where, first + second)
      <==> AllWritable(tree, chunk, k, where, first) && AllWritable(tree, chunk, k, where + first, second)
  {
  }

  lemma AllOnLeft(tree: Tree, left: Tree, right: Tree, chunk: nat, k: nat, where: nat, size: nat)
    requires k > 0 && where + size <= Len(chunk, k) / 2
    requires forall p | where <= p < where + size :: InHalves(tree, left, right, chunk, k, p)
    ensures AllWritable(tree, chunk, k, where, size) <==> AllWritable(left, chunk, k - 1, where, size)
  {
    var below := k - 1;
    forall p | where <= p < where + size ensures Writable(tree, chunk, k, p) == Writable(left, chunk, below, p) {
      assert InHalves(tree, left, right, chunk, k, p);
    }
  }

  lemma AllOnRight(tree: Tree, left: Tree, right: Tree, chunk: nat, k: nat, where: nat, size: nat)
    requires k > 0 && Len(chunk, k) / 2 <= where && where + size <= Len(chunk, k)
    requires forall p | where <= p < where + size :: InHalves(tree, left, right, chunk, k, p)
    ensures AllWritable(tree, chunk, k, where, size)
      <==> AllWritable(right, chunk, k - 1, where - Len(chunk, k) / 2, size)
  {
    var half, below := Len(chunk, k) / 2, k - 1;
    forall q | where - half <= q < where - half + size
      ensures Writable(tree, chunk, k, q + half) == Writable(right, chunk, below, q)
    {
      assert InHalves(tree, left, right, chunk, k, q + half);
    }
    if AllWritable(right, chunk, k - 1, where - half, size) {
      forall p | where <= p < where + size ensures Writable(tree, chunk, k, p) {
        assert Writable(right, chunk, below, p - half);
      }
    }
  }

  /** A store succeeds exactly if every place that it writes lies in an allocated block. */
  lemma {:induction false} StoreSucceedsIff(tree: Tree, chunk: nat, k: nat, where: nat, data: seq<Byte>)
    requires chunk > 0 && Sized(tree, chunk) && Clean(tree) && NotNested(tree)
    requires data != [] && where + |data| <= Len(chunk, k)
    ensures Store(tree, chunk, k, where, data, false).Done? <==> AllWritable(tree, chunk, k, where, |data|)
    decreases k
  {
    var t := Force(tree);
    if !t.status.Unallocated? {
      AllocatedNodeStore(tree, chunk, k, where, data);
    } else if k == 0 {
      assert !Writable(tree, chunk, k, where);
    } else {
      StoreInHalves(tree, chunk, k, where, data, false);
      var d, half := ForceChildrenAndDeriveState(t), Len(chunk, k) / 2;
      DeriveKeeps(tree, chunk, k, 0);
      WritableHalves(tree, chunk, k, where, |data|);
      if where < half {
        StoreSucceedsIff(d.left, chunk, k - 1, where, LeftPart(data, where, half));
      }
      if where + |data| > half {
        StoreSucceedsIff(d.right, chunk, k - 1, RightStart(where, half), RightPart(data, where, half));
      }
    }
  }

  lemma AllocatedNodeStore(tree: Tree, chunk: nat, k: nat, where: nat, data: seq<Byte>)
    requires chunk > 0 && Sized(tree, chunk) && Clean(tree) && NotNested(tree)
    requires data != [] && where + |data| <= Len(chunk, k) && !Force(tree).status.Unallocated?
    ensures Store(tree, chunk, k, where, data, false).Done? <==> where + |data| <= tree.reallyAllocated
    ensures AllWritable(tree, chunk, k, where, |data|) <==> where + |data| <= tree.reallyAllocated
  {
    if where + |data| <= tree.reallyAllocated && k > 0 {
      OwnedBelow(tree, where, |data|, false);
      HalvesSucceed(tree, chunk, k, where, data, false);
    }
    assert Writable(tree, chunk, k, where + |data| - 1) <==> where + |data| <= tree.reallyAllocated;
  }

  // ---------- main results about stores ----------

  /** A successful store: its data can be read back, what is allocated is as before, and the
    * other places are as before except for garbage in chunks that had no bytes yet. */
  lemma StoreMeans(tree: Tree, chunk: nat, k: nat, where: nat, data: seq<Byte>, p: nat)
    requires Valid(tree, chunk) && data != [] && where + |data| <= Len(chunk, k) && p < Len(chunk, k)
    requires AllWritable(tree, chunk, k, where, |data|)
    ensures var r := Store(tree, chunk, k, where, data, false);
      && r.Done? && Valid(r.tree, chunk)
      && CellAt(r.tree, chunk, k, p) == Stored(tree, chunk, k, where, data, p)
      && Writable(r.tree, chunk, k, p) == Writable(tree, chunk, k, p)
  {
    StoreSucceedsIff(tree, chunk, k, where, data);
    var r := Store(tree, chunk, k, where, data, false).tree;
    StoreKeepsShape(tree, chunk, k, where, data, false, r);
    StoreEffect(tree, chunk, k, where, data, false, p, r);
    StoreKeepsWritable(tree, chunk, k, where, data, false, p, r);
  }

  /** Reading a place: what the tree answers there is what is in memory. */
  lemma {:induction false} GetMeans(t: Tree, chunk: nat, k: nat, where: nat)
    requires where < Len(chunk, k) && Sized(t, chunk)
    ensures CellAt(t, chunk, k, where) ==
      match Get(t, chunk, k, where)
      case IllegalLoad => Absent
      case Covered(state, fill) => if state.Memset? then Known(fill) else Unwritten
      case Data(cells) => if cells == [] then Absent else cells[0]
    decreases k
  {
    if k > 0 && t.Node? && t.state.Unknown? {
      var half := Len(chunk, k) / 2;
      if where < half {
        GetMeans(t.left, chunk, k - 1, where);
      } else {
        GetMeans(t.right, chunk, k - 1, where - half);
      }
    }
  }

  lemma {:induction false} GarbageIsInBytes(t: Tree, chunk: nat, k: nat, p: nat)
    requires p < Len(chunk, k) && Sized(t, chunk) && !HoldsBytes(t, chunk, k, p)
    ensures CellAt(t, chunk, k, p) != Garbage
    decreases k
  {
    if k > 0 && t.Node? && t.state.Unknown? {
      var half := Len(chunk, k) / 2;
      if p < half {
        GarbageIsInBytes(t.left, chunk, k - 1, p);
      } else {
        GarbageIsInBytes(t.right, chunk, k - 1, p - half);
      }
    }
  }

  ghost predicate OthersKept(tree: Tree, r: Tree, chunk: nat, k: nat, where: nat, size: nat)
    requires Sized(tree, chunk) && Sized(r, chunk)
  {
    forall p: nat | p < Len(chunk, k) && !(where <= p < where + size) ::
      CellAt(r, chunk, k, p) == CellAt(tree, chunk, k, p)
  }

  ghost predicate OthersHaveBytes(tree: Tree, chunk: nat, k: nat, where: nat, size: nat)
    requires chunk > 0 && size > 0 && where + size <= Len(chunk, k)
  {
    forall p: nat | p < Len(chunk, k) && !(where <= p < where + size) && Touched(chunk, k, where, size, p) ::
      HoldsBytes(tree, chunk, k, p)
  }

  /** A store leaves all other places as they were exactly if every chunk that it covers in
    * part already held bytes: the rest of a zeroed or uninitialised chunk is lost. */
  lemma OtherPlacesAreKeptIff(tree: Tree, chunk: nat, k: nat, where: nat, data: seq<Byte>)
    requires Valid(tree, chunk) && data != [] && where + |data| <= Len(chunk, k)
    requires AllWritable(tree, chunk, k, where, |data|)
    ensures var r := Store(tree, chunk, k, where, data, false);
      && r.Done? && Sized(r.tree, chunk)
      && (OthersKept(tree, r.tree, chunk, k, where, |data|) <==> OthersHaveBytes(tree, chunk, k, where, |data|))
  {
    StoreMeans(tree, chunk, k, where, data, where);
    var r := Store(tree, chunk, k, where, data, false).tree;
    if OthersKept(tree, r, chunk, k, where, |data|) {
      forall p: nat | p < Len(chunk, k) && !(where <= p < where + |data|) && Touched(chunk, k, where, |data|, p)
        ensures HoldsBytes(tree, chunk, k, p)
      {
        StoreMeans(tree, chunk, k, where, data, p);
        if !HoldsBytes(tree, chunk, k, p) {
          GarbageIsInBytes(tree, chunk, k, p);
        }
      }
    }
    if OthersHaveBytes(tree, chunk, k, where, |data|) {
      forall p: nat | p < Len(chunk, k) && !(where <= p < where + |data|)
        ensures CellAt(r, chunk, k, p) == CellAt(tree, chunk, k, p)
      {
        StoreMeans(tree, chunk, k, where, data, p);
      }
    }
  }

  // ---------- the effect of an allocation ----------

  /** Nothing has been put into the node yet. */
  predicate Blank(t: Tree) {
    t.Node? ==> t.status.Unallocated? && t.state.Unknown? && t.chunk == [] && t.left.Nil? && t.right.Nil?
  }

  /** The descent meets no allocated node and ends at a blank one, at its start. */
  predicate BlankAt(tree: Tree, chunk: nat, k: nat, where: nat, size: nat)
    requires where < Len(chunk, k)
    decreases k
  {
    var t, half := Force(tree), Len(chunk, k) / 2;
    && t.status.Unallocated? && t.state.Unknown?
    && if k == 0 || (where == 0 && half < size) then Blank(tree) && where == 0 && size <= Len(chunk, k)
       else if where < half then BlankAt(t.left, chunk, k - 1, where, size)
       else BlankAt(t.right, chunk, k - 1, where - half, size)
  }

  /** The place lies in the node at which the descent ends. */
  predicate InBlock(chunk: nat, k: nat, where: nat, size: nat, p: nat)
    requires where < Len(chunk, k) && p < Len(chunk, k)
    decreases k
  {
    var half := Len(chunk, k) / 2;
    k == 0 || (where == 0 && half < size) ||
    if where < half then p < half && InBlock(chunk, k - 1, where, size, p)
    else p >= half && InBlock(chunk, k - 1, where - half, size, p - half)
  }

  /** A node with another child on one side. */
  lemma ReplacedChild(d: Tree, child: Tree, onLeft: bool, chunk: nat, k: nat, p: nat)
    requires chunk > 0 && k > 0 && d.Node? && d.status.Unallocated? && d.state.Unknown? && p < Len(chunk, k)
    requires Valid(d, chunk) && Valid(child, chunk)
    ensures var r := if onLeft then d.(left := child) else d.(right := child);
      var half := Len(chunk, k) / 2;
      && Valid(r, chunk)
      && CellAt(r, chunk, k, p) ==
          (if onLeft && p < half then CellAt(child, chunk, k - 1, p)
           else if !onLeft && p >= half then CellAt(child, chunk, k - 1, p - half)
           else CellAt(d, chunk, k, p))
      && Writable(r, chunk, k, p) ==
          (if onLeft && p < half then Writable(child, chunk, k - 1, p)
           else if !onLeft && p >= half then Writable(child, chunk, k - 1, p - half)
           else Writable(d, chunk, k, p))
  {
  }

  /** What an allocation makes of a place: the block has the requested state, exactly its
    * first `size` places become writable, and everything else stays as it was. */
  ghost predicate AllocatedAs(tree: Tree, r: Tree, chunk: nat, k: nat, where: nat, size: nat, state: MemState, p: nat)
    requires Sized(tree, chunk) && where < Len(chunk, k) && p < Len(chunk, k)
  {
    && r.Node? && Valid(r, chunk)
    && CellAt(r, chunk, k, p) ==
        (if !InBlock(chunk, k, where, size, p) then CellAt(tree, chunk, k, p)
         else if state.Memset? then Known(0) else Unwritten)
    && (Writable(r, chunk, k, p) <==> where <= p < where + size || Writable(tree, chunk, k, p))
  }

  /** An allocation in blank memory succeeds, with the effect of an allocation. */
  lemma {:induction false} AllocateMeans(tree: Tree, chunk: nat, k: nat, where: nat, size: nat, state: MemState,
                                         status: Status, p: nat)
    returns (r: Tree)
    requires Valid(tree, chunk) && where < Len(chunk, k) && p < Len(chunk, k)
    requires BlankAt(tree, chunk, k, where, size) && !status.Unallocated? && !state.Unknown?
    ensures Allocate(tree, chunk, k, where, size, state, status) == Done(r)
    ensures AllocatedAs(tree, r, chunk, k, where, size, state, p)
    decreases k
  {
    var half := Len(chunk, k) / 2;
    if k == 0 || (where == 0 && half < size) {
      BlankBlock(tree, chunk, k, size, state, status, p);
      r := Marked(Force(tree), size, state, status);
    } else {
      var d := ForceChildrenAndDeriveState(Force(tree));
      BlankBelow(tree, chunk, k, where, size);
      var child, from := if where < half then d.left else d.right, if where < half then where else where - half;
      var q := if p < half then p else p - half;
      var c := AllocateMeans(child, chunk, k - 1, from, size, state, status, q);
      r := AllocatedInHalf(tree, child, c, chunk, k, where, from, size, state, status, p, q);
    }
  }

  /** The half that the descent goes into is blank where the descent ends. */
  lemma BlankBelow(tree: Tree, chunk: nat, k: nat, where: nat, size: nat)
    requires Valid(tree, chunk) && k > 0 && where < Len(chunk, k)
    requires BlankAt(tree, chunk, k, where, size) && !(where == 0 && Len(chunk, k) / 2 < size)
    ensures var d, half := ForceChildrenAndDeriveState(Force(tree)), Len(chunk, k) / 2;
      && Valid(d.left, chunk) && Valid(d.right, chunk)
      && (where < half ==> BlankAt(d.left, chunk, k - 1, where, size) && where + size <= Len(chunk, k - 1))
      && (where >= half ==>
            BlankAt(d.right, chunk, k - 1, where - half, size) && where - half + size <= Len(chunk, k - 1))
  {
    var t, half := Force(tree), Len(chunk, k) / 2;
    DeriveKeeps(tree, chunk, k, 0);
    if where < half {
      BlankChild(t, t.left, chunk, k - 1, where, size);
      BlankFits(t.left, chunk, k - 1, where, size);
    } else {
      BlankChild(t, t.right, chunk, k - 1, where - half, size);
      BlankFits(t.right, chunk, k - 1, where - half, size);
    }
  }

  function ChildAt(t: Tree, onLeft: bool): Tree
    requires t.Node?
  {
    if onLeft then t.left else t.right
  }

  function InHalf(p: nat, half: nat): nat {
    if p < half then p else p - half
  }

  /** From the half that an allocation goes into to the node. */
  lemma AllocatedInHalf(tree: Tree, child: Tree, c: Tree, chunk: nat, k: nat, where: nat, from: nat, size: nat,
                        state: MemState, status: Status, p: nat, q: nat) returns (r: Tree)
    requires Valid(tree, chunk) && k > 0 && where < Len(chunk, k) && p < Len(chunk, k)
    requires BlankAt(tree, chunk, k, where, size) && !(where == 0 && Len(chunk, k) / 2 < size)
    requires from < Len(chunk, k - 1) && from + size <= Len(chunk, k - 1) && q < Len(chunk, k - 1)
    requires Sized(child, chunk) && AllocatedAs(child, c, chunk, k - 1, from, size, state, q)
    requires Allocate(child, chunk, k - 1, from, size, state, status) == Done(c)
    requires child == ChildAt(ForceChildrenAndDeriveState(Force(tree)), where < Len(chunk, k) / 2)
    requires from == InHalf(where, Len(chunk, k) / 2) && q == InHalf(p, Len(chunk, k) / 2)
    ensures Allocate(tree, chunk, k, where, size, state, status) == Done(r)
    ensures AllocatedAs(tree, r, chunk, k, where, size, state, p)
  {
    var d := ForceChildrenAndDeriveState(Force(tree));
    DeriveKeeps(tree, chunk, k, p);
    BlankHalves(tree, chunk, k, where, size, p);
    ReplacedChild(d, c, where < Len(chunk, k) / 2, chunk, k, p);
    r := if where < Len(chunk, k) / 2 then d.(left := c) else d.(right := c);
  }

  lemma BlankBlock(tree: Tree, chunk: nat, k: nat, size: nat, state: MemState, status: Status, p: nat)
    requires chunk > 0 && p < Len(chunk, k) && Blank(tree) && size <= Len(chunk, k)
    requires !status.Unallocated? && !state.Unknown?
    ensures var r := Marked(Force(tree), size, state, status);
      && Valid(r, chunk)
      && CellAt(r, chunk, k, p) == (if state.Memset? then Known(0) else Unwritten)
      && (Writable(r, chunk, k, p) <==> p < size) && !Writable(tree, chunk, k, p)
  {
    assert tree.Nil? || (tree.left.Nil? && tree.right.Nil?);
  }

  /** Contents and writability of an unallocated node are those of its halves. */
  lemma BlankHalves(tree: Tree, chunk: nat, k: nat, where: nat, size: nat, p: nat)
    requires Valid(tree, chunk) && k > 0 && where < Len(chunk, k) && p < Len(chunk, k)
    requires BlankAt(tree, chunk, k, where, size) && !(where == 0 && Len(chunk, k) / 2 < size)
    ensures var d, half := ForceChildrenAndDeriveState(Force(tree)), Len(chunk, k) / 2;
      && Sized(d, chunk)
      && CellAt(tree, chunk, k, p) ==
          (if p < half then CellAt(d.left, chunk, k - 1, p) else CellAt(d.right, chunk, k - 1, p - half))
      && Writable(tree, chunk, k, p) ==
          (if p < half then Writable(d.left, chunk, k - 1, p) else Writable(d.right, chunk, k - 1, p - half))
      && InBlock(chunk, k, where, size, p) ==
          (if where < half then p < half && InBlock(chunk, k - 1, where, size, p)
           else p >= half && InBlock(chunk, k - 1, where - half, size, p - half))
  {
    DeriveKeeps(tree, chunk, k, p);
  }

  lemma BlankChild(t: Tree, child: Tree, chunk: nat, k: nat, where: nat, size: nat)
    requires t.Node? && t.state.Unknown? && where < Len(chunk, k) && BlankAt(child, chunk, k, where, size)
    ensures BlankAt(Child(child, t), chunk, k, where, size)
  {
  }

  lemma {:induction false} BlankFits(tree: Tree, chunk: nat, k: nat, where: nat, size: nat)
    requires where < Len(chunk, k) && BlankAt(tree, chunk, k, where, size)
    ensures where + size <= Len(chunk, k)
    decreases k
  {
    var t, half := Force(tree), Len(chunk, k) / 2;
    if k > 0 && !(where == 0 && half < size) {
      if where < half {
        BlankFits(t.left, chunk, k - 1, where, size);
      } else {
        BlankFits(t.right, chunk, k - 1, where - half, size);
      }
    }
  }
}
