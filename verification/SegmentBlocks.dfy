/** The arithmetic of the tree's nodes, and what an allocation does to memory that is not
  * blank. */
module SegmentBlocks {
  import opened Bits
  import opened SegmentTrees

  // ---------- sizes of nodes ----------

  /** A half is a whole number of nodes of each smaller size. */
  lemma {:induction false} LenMultiple(chunk: nat, m: nat, k: nat)
    requires chunk > 0 && m <= k
    ensures Len(chunk, k) % Len(chunk, m) == 0 && Len(chunk, m) <= Len(chunk, k)
    decreases k
  {
    var d := Len(chunk, m);
    if m == k {
      DivUnique(d, d, 1, 0);
    } else {
      LenMultiple(chunk, m, k - 1);
      Doubled(Len(chunk, k - 1), d);
    }
  }

  lemma Doubled(n: nat, d: nat)
    requires d > 0 && n % d == 0
    ensures 2 * n % d == 0
  {
    assert n == (n / d) * d;
    assert 2 * n == (n / d + n / d) * d;
    DivUnique(2 * n, d, n / d + n / d, 0);
  }

  /** Beyond whole nodes the count goes on, and the place in the node is the same. */
  lemma ShiftByNodes(p: nat, half: nat, d: nat)
    requires d > 0 && half % d == 0
    ensures (p + half) / d == p / d + half / d && (p + half) % d == p % d
  {
    assert half == (half / d) * d && p == (p / d) * d + p % d;
    assert (p / d + half / d) * d == (p / d) * d + (half / d) * d;
    DivUnique(p + half, d, p / d + half / d, p % d);
  }

  lemma QuotientGrows(p: nat, q: nat, d: nat)
    requires d > 0 && p <= q
    ensures p / d <= q / d
  {
    MulMonotone(q / d + 1, p / d, d);
    assert p == (p / d) * d + p % d && q == (q / d) * d + q % d;
    assert (q / d + 1) * d == (q / d) * d + d;
  }

  /** What lies below a multiple counts less. */
  lemma QuotientBelow(p: nat, half: nat, d: nat)
    requires d > 0 && half % d == 0
    ensures p < half <==> p / d < half / d
  {
    assert half == (half / d) * d && p == (p / d) * d + p % d;
    if p < half {
      QuotientGrows(p, half, d);
      MulMonotone(half / d, p / d, d);
    } else {
      QuotientGrows(half, p, d);
    }
  }

  // ---------- the range of a store ----------

  /** The range reaches from the chunk of the place or before to that chunk or behind. */
  predicate Reaches(chunk: nat, where: nat, size: nat, p: nat)
    requires chunk > 0 && size > 0
  {
    where / chunk <= p / chunk <= (where + size - 1) / chunk
  }

  lemma ReachesBelow(chunk: nat, half: nat, where: nat, size: nat, p: nat)
    requires chunk > 0 && size > 0 && half % chunk == 0 && p < half
    ensures where >= half ==> !Reaches(chunk, where, size, p)
    ensures where < half <= where + size ==> Reaches(chunk, where, size, p) == Reaches(chunk, where, half - where, p)
  {
    QuotientBelow(p, half, chunk);
    QuotientBelow(where, half, chunk);
    QuotientGrows(p, half - 1, chunk);
    if half <= where + size {
      QuotientGrows(half - 1, where + size - 1, chunk);
    }
  }

  lemma ReachesAbove(chunk: nat, half: nat, where: nat, size: nat, p: nat)
    requires chunk > 0 && size > 0 && half % chunk == 0 && p >= half
    ensures where + size <= half ==> !Reaches(chunk, where, size, p)
    ensures where < half < where + size ==>
      Reaches(chunk, where, size, p) == Reaches(chunk, 0, where + size - half, p - half)
    ensures where >= half ==> Reaches(chunk, where, size, p) == Reaches(chunk, where - half, size, p - half)
  {
    QuotientBelow(p, half, chunk);
    QuotientBelow(where, half, chunk);
    QuotientBelow(where + size - 1, half, chunk);
    ShiftByNodes(p - half, half, chunk);
    if where + size > half {
      ShiftByNodes(where + size - 1 - half, half, chunk);
    }
    if where >= half {
      ShiftByNodes(where - half, half, chunk);
    }
    DivUnique(0, chunk, 0, 0);
  }

  /** A store touches the chunks that its range reaches. */
  lemma {:induction false} TouchedMeans(chunk: nat, k: nat, where: nat, size: nat, p: nat)
    requires chunk > 0 && size > 0 && where + size <= Len(chunk, k) && p < Len(chunk, k)
    ensures Touched(chunk, k, where, size, p) <==> where / chunk <= p / chunk <= (where + size - 1) / chunk
    decreases k
  {
    if k == 0 {
      DivUnique(p, chunk, 0, p);
      DivUnique(where, chunk, 0, where);
      DivUnique(where + size - 1, chunk, 0, where + size - 1);
    } else {
      var half := Len(chunk, k - 1);
      LenMultiple(chunk, 0, k - 1);
      if p < half {
        ReachesBelow(chunk, half, where, size, p);
        if where < half {
          TouchedMeans(chunk, k - 1, where, if where + size > half then half - where else size, p);
        }
      } else {
        ReachesAbove(chunk, half, where, size, p);
        if where < half < where + size {
          TouchedMeans(chunk, k - 1, 0, where + size - half, p - half);
        } else if where >= half {
          TouchedMeans(chunk, k - 1, where - half, size, p - half);
        }
      }
    }
  }

  // ---------- the block of an allocation ----------

  /** The level of the smallest node that is large enough. */
  function Level(chunk: nat, k: nat, size: nat): (m: nat)
    ensures m <= k
    ensures size <= Len(chunk, k) ==> size <= Len(chunk, m)
    ensures m == 0 || Len(chunk, m - 1) < size
  {
    if k == 0 || Len(chunk, k - 1) < size then k else Level(chunk, k - 1, size)
  }

  lemma {:induction false} LevelBelow(chunk: nat, k: nat, size: nat)
    requires chunk > 0 && k > 0
    ensures size <= Len(chunk, k - 1) ==> Level(chunk, k, size) == Level(chunk, k - 1, size)
    ensures size > Len(chunk, k - 1) ==> Level(chunk, k, size) == k
  {
  }

  /** The places of an allocation's node are those with the same count of nodes of that size
    * before them. */
  lemma {:induction false} InBlockMeans(chunk: nat, k: nat, where: nat, size: nat, p: nat)
    requires chunk > 0 && size <= Len(chunk, k) && where < Len(chunk, k) && p < Len(chunk, k)
    requires IsAligned(chunk, k, where, size)
    ensures var d := Len(chunk, Level(chunk, k, size)); InBlock(chunk, k, where, size, p) <==> p / d == where / d
    decreases k
  {
    var m := Level(chunk, k, size);
    var d := Len(chunk, m);
    if m == k {
      SmallMod(p, d);
      SmallMod(where, d);
      DivUnique(p, d, 0, p);
      DivUnique(where, d, 0, where);
    } else {
      var half := Len(chunk, k - 1);
      LevelBelow(chunk, k, size);
      LenMultiple(chunk, m, k - 1);
      QuotientBelow(p, half, d);
      QuotientBelow(where, half, d);
      if where < half && p < half {
        InBlockMeans(chunk, k - 1, where, size, p);
      } else if where >= half && p >= half {
        ShiftByNodes(where - half, half, d);
        ShiftByNodes(p - half, half, d);
        InBlockMeans(chunk, k - 1, where - half, size, p - half);
      }
    }
  }

  predicate IsAligned(chunk: nat, k: nat, where: nat, size: nat)
    requires chunk > 0
  {
    var m := Level(chunk, k, size);
    m == 0 || where % Len(chunk, m) == 0
  }

  lemma AlignedBelow(chunk: nat, k: nat, where: nat, size: nat)
    requires chunk > 0 && k > 0 && where < Len(chunk, k) && size <= Len(chunk, k - 1)
    ensures var half := Len(chunk, k - 1);
      IsAligned(chunk, k, where, size) == IsAligned(chunk, k - 1, if where < half then where else where - half, size)
  {
    var half := Len(chunk, k - 1);
    LevelBelow(chunk, k, size);
    LenMultiple(chunk, Level(chunk, k, size), k - 1);
    if where >= half {
      ShiftByNodes(where - half, half, Len(chunk, Level(chunk, k, size)));
    }
  }

  /** An allocation succeeds exactly if its place is aligned to the smallest node that is
    * large enough; a single chunk need not be aligned. */
  lemma {:induction false} AllocateSucceedsIff(tree: Tree, chunk: nat, k: nat, where: nat, size: nat, state: MemState,
                                               status: Status)
    requires chunk > 0 && where < Len(chunk, k)
    ensures Allocate(tree, chunk, k, where, size, state, status).Done?
      == (size <= Len(chunk, k) && IsAligned(chunk, k, where, size))
    decreases k
  {
    if k > 0 && size <= Len(chunk, k) {
      if size > Len(chunk, k - 1) {
        WholeNode(tree, chunk, k, where, size, state, status);
      } else {
        var child, from := AllocateInHalf(tree, chunk, k, where, size, state, status);
        AlignedBelow(chunk, k, where, size);
        AllocateSucceedsIff(child, chunk, k - 1, from, size, state, status);
      }
    }
  }

  lemma AllocateInHalf(tree: Tree, chunk: nat, k: nat, where: nat, size: nat, state: MemState, status: Status)
    returns (child: Tree, from: nat)
    requires chunk > 0 && k > 0 && where < Len(chunk, k) && size <= Len(chunk, k - 1)
    ensures from == (if where < Len(chunk, k - 1) then where else where - Len(chunk, k - 1)) && from < Len(chunk, k - 1)
    ensures Allocate(tree, chunk, k, where, size, state, status).Done?
      == Allocate(child, chunk, k - 1, from, size, state, status).Done?
  {
    var d, half := ForceChildrenAndDeriveState(Force(tree)), Len(chunk, k - 1);
    assert Len(chunk, k) / 2 == half;
    child, from := if where < half then d.left else d.right, if where < half then where else where - half;
  }

  lemma WholeNode(tree: Tree, chunk: nat, k: nat, where: nat, size: nat, state: MemState, status: Status)
    requires chunk > 0 && k > 0 && where < Len(chunk, k) && Len(chunk, k - 1) < size <= Len(chunk, k)
    ensures Allocate(tree, chunk, k, where, size, state, status).Done? == (where == 0)
    ensures IsAligned(chunk, k, where, size) == (where == 0)
  {
    LevelBelow(chunk, k, size);
    SmallMod(where, Len(chunk, k));
  }

  // ---------- allocating over what is there ----------

  /** No allocated node contains the one at which the descent ends. */
  predicate FreeAbove(tree: Tree, chunk: nat, k: nat, where: nat, size: nat)
    requires where < Len(chunk, k)
    decreases k
  {
    var half := Len(chunk, k) / 2;
    k == 0 || (where == 0 && half < size) || tree.Nil? ||
    (tree.status.Unallocated? &&
     if where < half then FreeAbove(tree.left, chunk, k - 1, where, size)
     else FreeAbove(tree.right, chunk, k - 1, where - half, size))
  }

  /** An allocation gives its node the requested state, whatever was in it, and makes its
    * first `size` places writable unless it lies in an allocated node; elsewhere memory is as
    * before. */
  ghost predicate AllocatedOver(tree: Tree, r: Tree, chunk: nat, k: nat, where: nat, size: nat, state: MemState, p: nat)
    requires chunk > 0 && Sized(tree, chunk) && where < Len(chunk, k) && p < Len(chunk, k)
  {
    var d := Len(chunk, Level(chunk, k, size));
    var inBlock := InBlock(chunk, k, where, size, p);
    && Sized(r, chunk)
    && CellAt(r, chunk, k, p) == (if !inBlock then CellAt(tree, chunk, k, p)
                                  else if state.Memset? then Known(0) else Unwritten)
    && Writable(r, chunk, k, p) == (if inBlock && FreeAbove(tree, chunk, k, where, size) then p % d < size
                                    else Writable(tree, chunk, k, p))
  }

  lemma {:induction false} AllocateOverMeans(tree: Tree, chunk: nat, k: nat, where: nat, size: nat, state: MemState,
                                             status: Status, p: nat, r: Tree)
    requires chunk > 0 && Sized(tree, chunk) && Clean(tree) && where < Len(chunk, k) && p < Len(chunk, k)
    requires !status.Unallocated? && !state.Unknown?
    requires Allocate(tree, chunk, k, where, size, state, status) == Done(r)
    ensures r.Node? && AllocatedOver(tree, r, chunk, k, where, size, state, p)
    decreases k
  {
    var half := Len(chunk, k) / 2;
    if k == 0 || (where == 0 && half < size) {
      LevelAtEnd(chunk, k, size, p);
    } else {
      var child, c := AllocationBelow(tree, chunk, k, where, size, state, status, r);
      AllocateOverMeans(child, chunk, k - 1, InHalf(where, half), size, state, status, InHalf(p, half), c);
      AllocatedOverHalf(tree, child, c, chunk, k, where, size, state, p, r);
    }
  }

  /** The half that an allocation goes into, before and after. */
  lemma AllocationBelow(tree: Tree, chunk: nat, k: nat, where: nat, size: nat, state: MemState, status: Status, r: Tree)
    returns (child: Tree, c: Tree)
    requires chunk > 0 && k > 0 && Sized(tree, chunk) && Clean(tree) && where < Len(chunk, k)
    requires !(where == 0 && Len(chunk, k) / 2 < size)
    requires Allocate(tree, chunk, k, where, size, state, status) == Done(r)
    ensures var half := Len(chunk, k) / 2;
      && IsInHalf(tree, child, c, where < half, r)
      && Allocate(child, chunk, k - 1, InHalf(where, half), size, state, status) == Done(c)
    ensures Sized(child, chunk) && Clean(child) && size <= Len(chunk, k - 1)
  {
    var d, half := ForceChildrenAndDeriveState(Force(tree)), Len(chunk, k) / 2;
    DeriveKeeps(tree, chunk, k, 0);
    child, c := if where < half then d.left else d.right, if where < half then r.left else r.right;
  }

  lemma LevelAtEnd(chunk: nat, k: nat, size: nat, p: nat)
    requires chunk > 0 && p < Len(chunk, k) && (k == 0 || Len(chunk, k) / 2 < size)
    ensures Level(chunk, k, size) == k && p % Len(chunk, k) == p
  {
    SmallMod(p, Len(chunk, k));
  }

  lemma FreeBelow(tree: Tree, chunk: nat, k: nat, where: nat, size: nat)
    requires chunk > 0 && k > 0 && where < Len(chunk, k) && !(where == 0 && Len(chunk, k) / 2 < size)
    ensures var d, half := ForceChildrenAndDeriveState(Force(tree)), Len(chunk, k) / 2;
      FreeAbove(tree, chunk, k, where, size) ==
        (d.status.Unallocated? &&
         if where < half then FreeAbove(d.left, chunk, k - 1, where, size)
         else FreeAbove(d.right, chunk, k - 1, where - half, size))
  {
    var t := Force(tree);
    FreeInEmpty(t, t.left, chunk, k - 1, if where < Len(chunk, k) / 2 then where else where - Len(chunk, k) / 2, size);
    FreeInEmpty(t, t.right, chunk, k - 1, if where < Len(chunk, k) / 2 then where else where - Len(chunk, k) / 2, size);
  }

  lemma FreeInEmpty(t: Tree, child: Tree, chunk: nat, k: nat, where: nat, size: nat)
    requires t.Node? && where < Len(chunk, k)
    ensures FreeAbove(Child(child, t), chunk, k, where, size) == FreeAbove(child, chunk, k, where, size)
  {
  }

  /** The half that an allocation goes into, after it, and the node. */
  predicate IsInHalf(tree: Tree, child: Tree, c: Tree, onLeft: bool, r: Tree) {
    var d := ForceChildrenAndDeriveState(Force(tree));
    && child == (if onLeft then d.left else d.right)
    && r == (if onLeft then d.(left := c) else d.(right := c))
  }

  /** From the half that an allocation goes into to the node. */
  lemma AllocatedOverHalf(tree: Tree, child: Tree, c: Tree, chunk: nat, k: nat, where: nat, size: nat,
                          state: MemState, p: nat, r: Tree)
    requires chunk > 0 && k > 0 && Sized(tree, chunk) && Clean(tree) && where < Len(chunk, k) && p < Len(chunk, k)
    requires size <= Len(chunk, k - 1) && Sized(child, chunk) && c.Node?
    requires IsInHalf(tree, child, c, where < Len(chunk, k) / 2, r)
    requires var half := Len(chunk, k) / 2;
      AllocatedOver(child, c, chunk, k - 1, InHalf(where, half), size, state, InHalf(p, half))
    ensures AllocatedOver(tree, r, chunk, k, where, size, state, p)
  {
    PlaceInNode(chunk, k, size, p);
    ContentsOverHalf(tree, child, c, chunk, k, where, size, state, p, r);
    WritableOverHalf(tree, child, c, chunk, k, where, size, p, r, p % Len(chunk, Level(chunk, k, size)) < size);
  }

  lemma ContentsOverHalf(tree: Tree, child: Tree, c: Tree, chunk: nat, k: nat, where: nat, size: nat,
                         state: MemState, p: nat, r: Tree)
    requires chunk > 0 && k > 0 && Sized(tree, chunk) && Clean(tree) && where < Len(chunk, k) && p < Len(chunk, k)
    requires size <= Len(chunk, k - 1) && Sized(child, chunk) && c.Node? && Sized(c, chunk)
    requires IsInHalf(tree, child, c, where < Len(chunk, k) / 2, r)
    requires var from, q := InHalf(where, Len(chunk, k) / 2), InHalf(p, Len(chunk, k) / 2);
      CellAt(c, chunk, k - 1, q) == if !InBlock(chunk, k - 1, from, size, q) then CellAt(child, chunk, k - 1, q)
                                    else if state.Memset? then Known(0) else Unwritten
    ensures Sized(r, chunk)
    ensures CellAt(r, chunk, k, p) == if !InBlock(chunk, k, where, size, p) then CellAt(tree, chunk, k, p)
                                      else if state.Memset? then Known(0) else Unwritten
  {
    DeriveKeeps(tree, chunk, k, p);
  }

  lemma WritableOverHalf(tree: Tree, child: Tree, c: Tree, chunk: nat, k: nat, where: nat, size: nat, p: nat, r: Tree,
                         within: bool)
    requires chunk > 0 && k > 0 && Sized(tree, chunk) && Clean(tree) && where < Len(chunk, k) && p < Len(chunk, k)
    requires size <= Len(chunk, k - 1) && c.Node?
    requires IsInHalf(tree, child, c, where < Len(chunk, k) / 2, r)
    requires var from, q := InHalf(where, Len(chunk, k) / 2), InHalf(p, Len(chunk, k) / 2);
      Writable(c, chunk, k - 1, q) ==
        if InBlock(chunk, k - 1, from, size, q) && FreeAbove(child, chunk, k - 1, from, size) then within
        else Writable(child, chunk, k - 1, q)
    ensures Writable(r, chunk, k, p) ==
      if InBlock(chunk, k, where, size, p) && FreeAbove(tree, chunk, k, where, size) then within
      else Writable(tree, chunk, k, p)
  {
    DeriveKeeps(tree, chunk, k, p);
    FreeBelow(tree, chunk, k, where, size);
  }

  /** In its half a place is as far into its node as in the whole. */
  lemma PlaceInNode(chunk: nat, k: nat, size: nat, p: nat)
    requires chunk > 0 && k > 0 && size <= Len(chunk, k - 1) && p < Len(chunk, k)
    ensures Level(chunk, k, size) == Level(chunk, k - 1, size)
    ensures var half, d := Len(chunk, k) / 2, Len(chunk, Level(chunk, k, size));
      p % d == InHalf(p, half) % d
  {
    LevelBelow(chunk, k, size);
    LenMultiple(chunk, Level(chunk, k, size), k - 1);
    if p >= Len(chunk, k - 1) {
      ShiftByNodes(p - Len(chunk, k - 1), Len(chunk, k - 1), Len(chunk, Level(chunk, k, size)));
    }
  }

  // ---------- what stays below an allocated node ----------

  /** The node at which the descent ends is not there, or has neither children nor a chunk. */
  predicate BareAt(tree: Tree, chunk: nat, k: nat, where: nat, size: nat)
    requires where < Len(chunk, k)
    decreases k
  {
    var half := Len(chunk, k) / 2;
    tree.Nil? ||
    if k == 0 || (where == 0 && half < size) then tree.left.Nil? && tree.right.Nil? && tree.chunk == []
    else if where < half then BareAt(tree.left, chunk, k - 1, where, size)
    else BareAt(tree.right, chunk, k - 1, where - half, size)
  }

  /** An allocation leaves no stale contents under its node exactly if there were none. */
  lemma {:induction false} AllocateKeepsCleanIff(tree: Tree, chunk: nat, k: nat, where: nat, size: nat,
                                                 state: MemState, status: Status, r: Tree)
    requires chunk > 0 && Clean(tree) && where < Len(chunk, k) && !state.Unknown?
    requires Allocate(tree, chunk, k, where, size, state, status) == Done(r)
    ensures Clean(r) <==> BareAt(tree, chunk, k, where, size)
    decreases k
  {
    var half := Len(chunk, k) / 2;
    if !(k == 0 || (where == 0 && half < size)) {
      var d, onLeft, from := ForceChildrenAndDeriveState(Force(tree)), where < half, InHalf(where, half);
      var c := DescendsInto(tree, chunk, k, where, size, state, status, r);
      CleanWithChild(tree, onLeft, c);
      AllocateKeepsCleanIff(ChildAt(d, onLeft), chunk, k - 1, from, size, state, status, c);
      BareBelow(tree, chunk, k, where, size);
    }
  }

  lemma DescendsInto(tree: Tree, chunk: nat, k: nat, where: nat, size: nat, state: MemState, status: Status, r: Tree)
    returns (c: Tree)
    requires chunk > 0 && k > 0 && where < Len(chunk, k) && !(where == 0 && Len(chunk, k) / 2 < size)
    requires Allocate(tree, chunk, k, where, size, state, status) == Done(r)
    ensures var d, half := ForceChildrenAndDeriveState(Force(tree)), Len(chunk, k) / 2;
      && Allocate(ChildAt(d, where < half), chunk, k - 1, InHalf(where, half), size, state, status) == Done(c)
      && r == (if where < half then d.(left := c) else d.(right := c))
  {
    c := ChildAt(r, where < Len(chunk, k) / 2);
  }

  lemma CleanWithChild(tree: Tree, onLeft: bool, c: Tree)
    requires Clean(tree)
    ensures var d := ForceChildrenAndDeriveState(Force(tree));
      && Clean(ChildAt(d, onLeft))
      && Clean(if onLeft then d.(left := c) else d.(right := c)) == Clean(c)
  {
  }

  lemma BareBelow(tree: Tree, chunk: nat, k: nat, where: nat, size: nat)
    requires chunk > 0 && k > 0 && where < Len(chunk, k) && !(where == 0 && Len(chunk, k) / 2 < size)
    ensures var d, half := ForceChildrenAndDeriveState(Force(tree)), Len(chunk, k) / 2;
      BareAt(tree, chunk, k, where, size) == BareAt(ChildAt(d, where < half), chunk, k - 1, InHalf(where, half), size)
  {
    var t, half := Force(tree), Len(chunk, k) / 2;
    BareChild(t, ChildAt(t, where < half), chunk, k - 1, InHalf(where, half), size);
  }

  lemma BareChild(t: Tree, child: Tree, chunk: nat, k: nat, where: nat, size: nat)
    requires t.Node? && where < Len(chunk, k)
    ensures BareAt(Child(child, t), chunk, k, where, size) == BareAt(child, chunk, k, where, size)
  {
  }

  /** The node without what is in it. */
  function Bare(t: Tree): Tree
    requires t.Node?
  {
    t.(chunk := [], left := Nil, right := Nil)
  }

  /** Stale contents come back: the first store into a block that was allocated over a node
    * with children leaves each half that had a child as if there had been no allocation; only
    * the other half is as in a block allocated over nothing. */
  lemma StaleContentsReturn(t: Tree, chunk: nat, k: nat, size: nat, state: MemState, status: Status,
                            where: nat, data: seq<Byte>, p: nat, r: Tree)
    requires IsStaleStore(t, chunk, k, size, state, status, where, data, r) && p < Len(chunk, k)
    ensures Sized(r, chunk) && CellAt(r, chunk, k, p) ==
      if (if p < Len(chunk, k) / 2 then t.left else t.right).Node? then Stored(t, chunk, k, where, data, p)
      else Stored(Marked(Bare(t), size, state, status), chunk, k, where, data, p)
  {
    var half, bare := Len(chunk, k) / 2, Marked(Bare(t), size, state, status);
    HalvesStayShaped(t, chunk, k, size, state, status, where, data, r);
    if p < half {
      LeftAfterStore(t, chunk, k, size, state, status, where, data, p, r);
      StoredOnLeft(if t.left.Node? then t else bare, chunk, k, where, data, p);
    } else {
      RightAfterStore(t, chunk, k, size, state, status, where, data, p, r);
      StoredOnRight(if t.right.Node? then t else bare, chunk, k, where, data, p);
    }
  }

  /** The same in a single chunk, whose bytes come back. */
  lemma StaleBytesReturn(t: Tree, chunk: nat, size: nat, state: MemState, status: Status, where: nat,
                         data: seq<Byte>, p: nat, r: Tree)
    requires chunk > 0 && t.Node? && t.state.Unknown? && Sized(t, chunk) && Clean(t)
    requires !status.Unallocated? && !state.Unknown? && data != [] && where + |data| <= chunk && p < chunk
    requires Store(Marked(t, size, state, status), chunk, 0, where, data, false) == Done(r)
    ensures Sized(r, chunk) && CellAt(r, chunk, 0, p) == Stored(t, chunk, 0, where, data, p)
  {
    assert r == StoreInChunk(Marked(t, size, state, status), chunk, where, data);
    assert r.chunk[p] ==
      if where <= p < where + |data| then Known(data[p - where]) else if t.chunk == [] then Garbage else t.chunk[p];
  }

  /** A store into a block that was allocated over a node with contents. */
  predicate IsStaleStore(t: Tree, chunk: nat, k: nat, size: nat, state: MemState, status: Status, where: nat,
                         data: seq<Byte>, r: Tree) {
    && chunk > 0 && k > 0 && t.Node? && t.state.Unknown? && Sized(t, chunk) && Clean(t)
    && NoneAllocated(t.left) && NoneAllocated(t.right) && !status.Unallocated? && !state.Unknown?
    && data != [] && where + |data| <= Len(chunk, k)
    && Store(Marked(t, size, state, status), chunk, k, where, data, false) == Done(r)
  }

  lemma HalvesStayShaped(t: Tree, chunk: nat, k: nat, size: nat, state: MemState, status: Status, where: nat,
                         data: seq<Byte>, r: Tree)
    requires IsStaleStore(t, chunk, k, size, state, status, where, data, r)
    ensures r.Node? && r.state.Unknown? && Sized(r, chunk)
  {
    var u, half := Marked(t, size, state, status), Len(chunk, k) / 2;
    StoredInLeft(t, chunk, k, size, state, status, where, data, r);
    StoredInRight(t, chunk, k, size, state, status, where, data, r);
    if where < half {
      StoreKeepsShape(Child(t.left, u), chunk, k - 1, where, LeftPart(data, where, half), true, r.left);
    }
    if where + |data| > half {
      StoreKeepsShape(Child(t.right, u), chunk, k - 1, RightStart(where, half), RightPart(data, where, half), true,
                      r.right);
    }
  }

  /** What such a store makes of the halves. */
  lemma StoredInLeft(t: Tree, chunk: nat, k: nat, size: nat, state: MemState, status: Status, where: nat,
                     data: seq<Byte>, r: Tree)
    requires IsStaleStore(t, chunk, k, size, state, status, where, data, r)
    ensures r.Node? && r.state.Unknown? && r.chunk == t.chunk
    ensures var half, left := Len(chunk, k) / 2, Child(t.left, Marked(t, size, state, status));
      && Shaped(left, chunk, true)
      && if where < half then Store(left, chunk, k - 1, where, LeftPart(data, where, half), true) == Done(r.left)
         else r.left == left
  {
    StoreBelow(Marked(t, size, state, status), chunk, k, where, data, false);
  }

  lemma StoredInRight(t: Tree, chunk: nat, k: nat, size: nat, state: MemState, status: Status, where: nat,
                      data: seq<Byte>, r: Tree)
    requires IsStaleStore(t, chunk, k, size, state, status, where, data, r)
    ensures r.Node?
    ensures var half, right := Len(chunk, k) / 2, Child(t.right, Marked(t, size, state, status));
      && Shaped(right, chunk, true)
      && if where + |data| > half then
           Store(right, chunk, k - 1, RightStart(where, half), RightPart(data, where, half), true) == Done(r.right)
         else r.right == right
  {
    StoreBelow(Marked(t, size, state, status), chunk, k, where, data, false);
  }

  lemma LeftAfterStore(t: Tree, chunk: nat, k: nat, size: nat, state: MemState, status: Status, where: nat,
                       data: seq<Byte>, p: nat, r: Tree)
    requires IsStaleStore(t, chunk, k, size, state, status, where, data, r) && p < Len(chunk, k) / 2
    requires r.Node? && Sized(r, chunk)
    ensures var half, left := Len(chunk, k) / 2, Child(t.left, Marked(t, size, state, status));
      && Sized(left, chunk)
      && CellAt(r.left, chunk, k - 1, p) ==
           if where < half then Stored(left, chunk, k - 1, where, LeftPart(data, where, half), p)
           else CellAt(left, chunk, k - 1, p)
  {
    var u, half := Marked(t, size, state, status), Len(chunk, k) / 2;
    StoredInLeft(t, chunk, k, size, state, status, where, data, r);
    if where < half {
      StoreEffect(Child(t.left, u), chunk, k - 1, where, LeftPart(data, where, half), true, p, r.left);
    }
  }

  lemma RightAfterStore(t: Tree, chunk: nat, k: nat, size: nat, state: MemState, status: Status, where: nat,
                        data: seq<Byte>, p: nat, r: Tree)
    requires IsStaleStore(t, chunk, k, size, state, status, where, data, r) && Len(chunk, k) / 2 <= p < Len(chunk, k)
    requires r.Node? && Sized(r, chunk)
    ensures var half, right := Len(chunk, k) / 2, Child(t.right, Marked(t, size, state, status));
      && Sized(right, chunk)
      && CellAt(r.right, chunk, k - 1, p - half) ==
           if where + |data| > half then
             Stored(right, chunk, k - 1, RightStart(where, half), RightPart(data, where, half), p - half)
           else CellAt(right, chunk, k - 1, p - half)
  {
    var u, half := Marked(t, size, state, status), Len(chunk, k) / 2;
    StoredInRight(t, chunk, k, size, state, status, where, data, r);
    if where + |data| > half {
      var right, start, part := Child(t.right, u), RightStart(where, half), RightPart(data, where, half);
      StoreEffect(right, chunk, k - 1, start, part, true, p - half, r.right);
    }
  }
}
