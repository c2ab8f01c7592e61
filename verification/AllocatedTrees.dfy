/** The allocator and the tree together: the tree that the allocator's blocks leave behind. */
module AllocatedTrees {
  import opened Bits
  import B = BumpAllocator
  import S = SegmentTrees

  lemma {:induction false} LenIsProduct(chunk: nat, k: nat)
    ensures S.Len(chunk, k) == chunk * Pow2(k)
  {
    if k > 0 {
      LenIsProduct(chunk, k - 1);
      Reassociate(chunk, Pow2(k - 1));
    }
  }

  // ---------- the two descents ----------

  lemma LocateBelow(chunk: nat, k: nat, lo: nat, where: nat, size: nat)
    requires chunk > 0 && k > 0 && where < S.Len(chunk, k) && size <= S.Len(chunk, k)
    requires !(where == 0 && S.Len(chunk, k) / 2 < size)
    ensures var half := S.Len(chunk, k) / 2;
      B.Locate(lo + where, size, lo, chunk, k)
        == B.Locate(lo + where, size, if where < half then lo else lo + half, chunk, k - 1)
  {
    LenIsProduct(chunk, k);
  }

  lemma AllocateBelow(tree: S.Tree, chunk: nat, k: nat, where: nat, size: nat, state: S.MemState, status: S.Status)
    returns (child: S.Tree)
    requires chunk > 0 && k > 0 && where < S.Len(chunk, k) && size <= S.Len(chunk, k)
    requires !(where == 0 && S.Len(chunk, k) / 2 < size)
    ensures var half := S.Len(chunk, k) / 2;
      S.Allocate(tree, chunk, k, where, size, state, status).Done?
        == S.Allocate(child, chunk, k - 1, if where < half then where else where - half, size, state, status).Done?
  {
    var d := S.ForceChildrenAndDeriveState(S.Force(tree));
    child := if where < S.Len(chunk, k) / 2 then d.left else d.right;
  }

  lemma LocateEnds(chunk: nat, k: nat, lo: nat, where: nat, size: nat)
    requires chunk > 0 && where < S.Len(chunk, k)
    ensures size > S.Len(chunk, k) ==> B.Locate(lo + where, size, lo, chunk, k) == B.None
    ensures size <= S.Len(chunk, k) && (k == 0 || (where == 0 && S.Len(chunk, k) / 2 < size)) ==>
      B.Locate(lo + where, size, lo, chunk, k) == B.Some(B.Node(lo, S.Len(chunk, k)))
  {
    LenIsProduct(chunk, k);
  }

  /** The allocator's descent finds a node where the tree's descent marks one, and fails where
    * that fails. */
  lemma {:induction false} LocateIsAllocate(tree: S.Tree, chunk: nat, k: nat, lo: nat, where: nat, size: nat,
                                            state: S.MemState, status: S.Status)
    requires chunk > 0 && where < S.Len(chunk, k)
    ensures B.Locate(lo + where, size, lo, chunk, k).Some?
      == S.Allocate(tree, chunk, k, where, size, state, status).Done?
    decreases k
  {
    var half := S.Len(chunk, k) / 2;
    LocateEnds(chunk, k, lo, where, size);
    if size <= S.Len(chunk, k) && k > 0 && !(where == 0 && half < size) {
      LocateBelow(chunk, k, lo, where, size);
      var child := AllocateBelow(tree, chunk, k, where, size, state, status);
      LocateIsAllocate(child, chunk, k - 1, if where < half then lo else lo + half,
                       if where < half then where else where - half, size, state, status);
    }
  }

  /** It is the node whose contents the allocation sets. */
  lemma {:induction false} LocatedBlock(chunk: nat, k: nat, lo: nat, where: nat, size: nat, p: nat)
    requires chunk > 0 && where < S.Len(chunk, k) && p < S.Len(chunk, k)
    ensures match B.Locate(lo + where, size, lo, chunk, k)
      case None => true
      case Some(node) =>
        && lo <= node.lo && node.End() <= lo + S.Len(chunk, k)
        && (S.InBlock(chunk, k, where, size, p) <==> node.lo <= lo + p < node.End())
    decreases k
  {
    var half := S.Len(chunk, k) / 2;
    LocateEnds(chunk, k, lo, where, size);
    if size <= S.Len(chunk, k) && k > 0 && !(where == 0 && half < size) {
      LocateBelow(chunk, k, lo, where, size);
      LocatedBlock(chunk, k - 1, if where < half then lo else lo + half,
                   if where < half then where else where - half, size, if p < half then p else p - half);
    }
  }

  // ---------- trees that match a list of blocks ----------

  predicate Overlaps(n: B.Node, lo: nat, hi: nat) {
    n.lo < hi && lo < n.End()
  }

  predicate Hits(segments: seq<B.Segment>, lo: nat, hi: nat) {
    exists s :: s in segments && Overlaps(s.node, lo, hi)
  }

  predicate IsBlock(segments: seq<B.Segment>, lo: nat, len: nat) {
    exists s :: s in segments && s.node == B.Node(lo, len)
  }

  /** Outside the blocks the tree is blank, and above them nothing is allocated. */
  predicate Matches(t: S.Tree, chunk: nat, k: nat, lo: nat, segments: seq<B.Segment>)
    decreases k
  {
    var len := S.Len(chunk, k);
    if !Hits(segments, lo, lo + len) then S.Blank(t)
    else
      IsBlock(segments, lo, len) ||
      (&& t.Node? && t.status.Unallocated? && t.state.Unknown?
       && (k > 0 ==> Matches(t.left, chunk, k - 1, lo, segments)
                     && Matches(t.right, chunk, k - 1, lo + len / 2, segments)))
  }

  /** The block does not overlap any of the others, and the descent finds it. */
  predicate Fresh(segments: seq<B.Segment>, s: B.Segment, chunk: nat, k: nat, lo: nat) {
    && s.node.len > 0 && lo <= s.node.lo < lo + S.Len(chunk, k)
    && !Hits(segments, s.node.lo, s.node.End())
    && B.Locate(s.node.lo, s.size, lo, chunk, k) == B.Some(s.node)
  }

  predicate Ends(s: B.Segment, chunk: nat, k: nat, lo: nat) {
    k == 0 || (s.node.lo == lo && S.Len(chunk, k) / 2 < s.size)
  }

  lemma FreshEnds(segments: seq<B.Segment>, s: B.Segment, chunk: nat, k: nat, lo: nat)
    requires chunk > 0 && Fresh(segments, s, chunk, k, lo)
    ensures s.size <= S.Len(chunk, k)
    ensures Ends(s, chunk, k, lo) ==> s.node == B.Node(lo, S.Len(chunk, k))
  {
    LocateEnds(chunk, k, lo, s.node.lo - lo, s.size);
  }

  /** A block that the descent finds lies in the node from which it started, and that is none
    * of the other blocks. */
  lemma FreshStays(segments: seq<B.Segment>, s: B.Segment, chunk: nat, k: nat, lo: nat)
    requires chunk > 0 && Fresh(segments, s, chunk, k, lo)
    ensures s.node.End() <= lo + S.Len(chunk, k) && Overlaps(s.node, lo, lo + S.Len(chunk, k))
    ensures !IsBlock(segments, lo, S.Len(chunk, k))
  {
    LocatedBlock(chunk, k, lo, s.node.lo - lo, s.size, 0);
    if b :| b in segments && b.node == B.Node(lo, S.Len(chunk, k)) {
      assert Overlaps(b.node, s.node.lo, s.node.End());
    }
  }

  /** One step of the descent. */
  lemma FreshBelow(segments: seq<B.Segment>, s: B.Segment, chunk: nat, k: nat, lo: nat)
    requires chunk > 0 && Fresh(segments, s, chunk, k, lo) && !Ends(s, chunk, k, lo)
    ensures var half := S.Len(chunk, k) / 2;
      Fresh(segments, s, chunk, k - 1, if s.node.lo < lo + half then lo else lo + half)
  {
    FreshEnds(segments, s, chunk, k, lo);
    LocateBelow(chunk, k, lo, s.node.lo - lo, s.size);
  }

  lemma {:induction false} MatchesMeansBlankAt(t: S.Tree, chunk: nat, k: nat, lo: nat, segments: seq<B.Segment>,
                                               s: B.Segment)
    requires chunk > 0 && Matches(t, chunk, k, lo, segments) && Fresh(segments, s, chunk, k, lo)
    ensures S.BlankAt(t, chunk, k, s.node.lo - lo, s.size)
    decreases k
  {
    var half := S.Len(chunk, k) / 2;
    FreshEnds(segments, s, chunk, k, lo);
    FreshStays(segments, s, chunk, k, lo);
    if !Ends(s, chunk, k, lo) {
      FreshBelow(segments, s, chunk, k, lo);
      ChildMatches(t, chunk, k, lo, segments);
      var u := S.Force(t);
      if s.node.lo < lo + half {
        MatchesMeansBlankAt(u.left, chunk, k - 1, lo, segments, s);
      } else {
        MatchesMeansBlankAt(u.right, chunk, k - 1, lo + half, segments, s);
      }
    }
  }

  /** What matches and is not a block has halves that match, before and after they are
    * created. */
  lemma ChildMatches(t: S.Tree, chunk: nat, k: nat, lo: nat, segments: seq<B.Segment>)
    requires chunk > 0 && k > 0 && Matches(t, chunk, k, lo, segments) && !IsBlock(segments, lo, S.Len(chunk, k))
    ensures var u, half := S.Force(t), S.Len(chunk, k) / 2;
      && u.status.Unallocated? && u.state.Unknown?
      && Matches(u.left, chunk, k - 1, lo, segments)
      && Matches(u.right, chunk, k - 1, lo + half, segments)
      && Matches(S.Child(u.left, u), chunk, k - 1, lo, segments)
      && Matches(S.Child(u.right, u), chunk, k - 1, lo + half, segments)
  {
    var u, half := S.Force(t), S.Len(chunk, k) / 2;
    if !Hits(segments, lo, lo + S.Len(chunk, k)) {
      assert !Hits(segments, lo, lo + half) && !Hits(segments, lo + half, lo + half + half);
    }
    CreatedMatches(u, u.left, chunk, k - 1, lo, segments);
    CreatedMatches(u, u.right, chunk, k - 1, lo + half, segments);
  }

  lemma CreatedMatches(u: S.Tree, child: S.Tree, chunk: nat, k: nat, lo: nat, segments: seq<B.Segment>)
    requires u.Node? && u.state.Unknown? && Matches(child, chunk, k, lo, segments)
    ensures Matches(S.Child(child, u), chunk, k, lo, segments)
  {
  }

  ghost predicate OneMore(segments: seq<B.Segment>, s: B.Segment, after: seq<B.Segment>) {
    forall t :: t in after <==> t in segments || t == s
  }

  /** A block elsewhere makes no difference. */
  lemma {:induction false} ElsewhereMatches(t: S.Tree, chunk: nat, k: nat, lo: nat, segments: seq<B.Segment>,
                                            s: B.Segment, after: seq<B.Segment>)
    requires Matches(t, chunk, k, lo, segments) && !Overlaps(s.node, lo, lo + S.Len(chunk, k))
    requires OneMore(segments, s, after)
    ensures Matches(t, chunk, k, lo, after)
    decreases k
  {
    var len := S.Len(chunk, k);
    if !Hits(segments, lo, lo + len) {
      assert !Hits(after, lo, lo + len);
    } else if IsBlock(segments, lo, len) {
      var b :| b in segments && b.node == B.Node(lo, len);
      assert b in after;
    } else if k > 0 {
      ElsewhereMatches(t.left, chunk, k - 1, lo, segments, s, after);
      ElsewhereMatches(t.right, chunk, k - 1, lo + len / 2, segments, s, after);
    }
  }

  lemma {:induction false} AllocatedMatches(t: S.Tree, chunk: nat, k: nat, lo: nat, segments: seq<B.Segment>,
                                            s: B.Segment, after: seq<B.Segment>, state: S.MemState, status: S.Status,
                                            r: S.Tree)
    requires chunk > 0 && Matches(t, chunk, k, lo, segments) && Fresh(segments, s, chunk, k, lo)
    requires OneMore(segments, s, after)
    requires S.Allocate(t, chunk, k, s.node.lo - lo, s.size, state, status) == S.Done(r)
    ensures Matches(r, chunk, k, lo, after)
    decreases k
  {
    if Ends(s, chunk, k, lo) {
      FreshEnds(segments, s, chunk, k, lo);
      BlockMatches(r, chunk, k, lo, s, after);
    } else {
      FreshStays(segments, s, chunk, k, lo);
      var child, x := StepDown(t, chunk, k, lo, segments, s, after, state, status, r);
      AllocatedMatches(child, chunk, k - 1, x.from, segments, s, after, state, status, x.into);
      HalvesMatch(r, chunk, k, lo, s, after, x);
    }
  }

  lemma BlockMatches(r: S.Tree, chunk: nat, k: nat, lo: nat, s: B.Segment, after: seq<B.Segment>)
    requires chunk > 0 && s in after && s.node == B.Node(lo, S.Len(chunk, k))
    ensures Matches(r, chunk, k, lo, after)
  {
    assert Overlaps(s.node, lo, lo + S.Len(chunk, k));
  }

  /** The half that an allocation has gone into, and the other one, with their positions. */
  datatype Halves = Halves(into: S.Tree, from: nat, other: S.Tree, otherFrom: nat)

  predicate HalvesOf(r: S.Tree, lo: nat, half: nat, x: Halves) {
    r.Node? && (x == Halves(r.left, lo, r.right, lo + half) || x == Halves(r.right, lo + half, r.left, lo))
  }

  /** Before the allocation both halves match. */
  lemma HalvesBefore(t: S.Tree, chunk: nat, k: nat, lo: nat, segments: seq<B.Segment>, where: nat, size: nat,
                     state: S.MemState, status: S.Status, r: S.Tree) returns (child: S.Tree, x: Halves)
    requires chunk > 0 && k > 0 && Matches(t, chunk, k, lo, segments) && !IsBlock(segments, lo, S.Len(chunk, k))
    requires where < S.Len(chunk, k) && !(where == 0 && S.Len(chunk, k) / 2 < size)
    requires S.Allocate(t, chunk, k, where, size, state, status) == S.Done(r)
    ensures HalvesOf(r, lo, S.Len(chunk, k) / 2, x) && r.status.Unallocated? && r.state.Unknown?
    ensures x.from == if where < S.Len(chunk, k) / 2 then lo else lo + S.Len(chunk, k) / 2
    ensures Matches(child, chunk, k - 1, x.from, segments) && Matches(x.other, chunk, k - 1, x.otherFrom, segments)
    ensures S.Allocate(child, chunk, k - 1, lo + where - x.from, size, state, status) == S.Done(x.into)
  {
    var half, d := S.Len(chunk, k) / 2, S.ForceChildrenAndDeriveState(S.Force(t));
    ChildMatches(t, chunk, k, lo, segments);
    AllocatesBelow(t, chunk, k, where, size, state, status, r);
    if where < half {
      child, x := d.left, Halves(r.left, lo, r.right, lo + half);
    } else {
      child, x := d.right, Halves(r.right, lo + half, r.left, lo);
    }
  }

  /** A block in one half is not in the other. */
  lemma OtherHalfIsElsewhere(segments: seq<B.Segment>, s: B.Segment, chunk: nat, k: nat, lo: nat, from: nat,
                             otherFrom: nat)
    requires chunk > 0 && k > 0 && Fresh(segments, s, chunk, k - 1, from)
    requires var half := S.Len(chunk, k - 1);
      (from == lo && otherFrom == lo + half) || (from == lo + half && otherFrom == lo)
    ensures !Overlaps(s.node, otherFrom, otherFrom + S.Len(chunk, k - 1))
  {
    FreshStays(segments, s, chunk, k - 1, from);
  }

  lemma StepDown(t: S.Tree, chunk: nat, k: nat, lo: nat, segments: seq<B.Segment>, s: B.Segment, after: seq<B.Segment>,
                 state: S.MemState, status: S.Status, r: S.Tree) returns (child: S.Tree, x: Halves)
    requires chunk > 0 && Matches(t, chunk, k, lo, segments)
    requires Fresh(segments, s, chunk, k, lo) && !Ends(s, chunk, k, lo)
    requires OneMore(segments, s, after)
    requires S.Allocate(t, chunk, k, s.node.lo - lo, s.size, state, status) == S.Done(r)
    ensures HalvesOf(r, lo, S.Len(chunk, k) / 2, x) && r.status.Unallocated? && r.state.Unknown?
    ensures Matches(child, chunk, k - 1, x.from, segments) && Fresh(segments, s, chunk, k - 1, x.from)
    ensures S.Allocate(child, chunk, k - 1, s.node.lo - x.from, s.size, state, status) == S.Done(x.into)
    ensures Matches(x.other, chunk, k - 1, x.otherFrom, after)
  {
    FreshStays(segments, s, chunk, k, lo);
    FreshBelow(segments, s, chunk, k, lo);
    child, x := HalvesBefore(t, chunk, k, lo, segments, s.node.lo - lo, s.size, state, status, r);
    OtherHalfMatches(chunk, k, lo, segments, s, after, r, x);
  }

  lemma OtherHalfMatches(chunk: nat, k: nat, lo: nat, segments: seq<B.Segment>, s: B.Segment, after: seq<B.Segment>,
                         r: S.Tree, x: Halves)
    requires chunk > 0 && k > 0 && HalvesOf(r, lo, S.Len(chunk, k) / 2, x) && OneMore(segments, s, after)
    requires Fresh(segments, s, chunk, k - 1, x.from) && Matches(x.other, chunk, k - 1, x.otherFrom, segments)
    ensures Matches(x.other, chunk, k - 1, x.otherFrom, after)
  {
    assert S.Len(chunk, k) / 2 == S.Len(chunk, k - 1);
    OtherHalfIsElsewhere(segments, s, chunk, k, lo, x.from, x.otherFrom);
    ElsewhereMatches(x.other, chunk, k - 1, x.otherFrom, segments, s, after);
  }

  lemma AllocatesBelow(t: S.Tree, chunk: nat, k: nat, where: nat, size: nat, state: S.MemState, status: S.Status,
                       r: S.Tree)
    requires chunk > 0 && k > 0 && where < S.Len(chunk, k) && !(where == 0 && S.Len(chunk, k) / 2 < size)
    requires S.Allocate(t, chunk, k, where, size, state, status) == S.Done(r)
    ensures var d, half := S.ForceChildrenAndDeriveState(S.Force(t)), S.Len(chunk, k) / 2;
      && r.Node? && r.status == S.Force(t).status && r.state.Unknown?
      && (where < half ==>
            S.Allocate(d.left, chunk, k - 1, where, size, state, status) == S.Done(r.left) && r.right == d.right)
      && (where >= half ==>
            S.Allocate(d.right, chunk, k - 1, where - half, size, state, status) == S.Done(r.right) && r.left == d.left)
  {
  }

  lemma HalvesMatch(r: S.Tree, chunk: nat, k: nat, lo: nat, s: B.Segment, after: seq<B.Segment>, x: Halves)
    requires k > 0 && HalvesOf(r, lo, S.Len(chunk, k) / 2, x) && r.status.Unallocated? && r.state.Unknown?
    requires s in after && Overlaps(s.node, lo, lo + S.Len(chunk, k))
    requires Matches(x.into, chunk, k - 1, x.from, after) && Matches(x.other, chunk, k - 1, x.otherFrom, after)
    ensures Matches(r, chunk, k, lo, after)
  {
  }

  // ---------- the tree of a list of blocks ----------

  function StatusOf(kind: B.Kind): S.Status {
    if kind.Alloca? then S.Alloca else S.Malloc
  }

  /** The tree after the allocations in turn, each with a state of its own. */
  function Build(segments: seq<B.Segment>, states: seq<S.MemState>, start: nat, chunk: nat, power: nat): S.Result
    requires |states| == |segments|
    requires forall i | 0 <= i < |segments| :: start <= segments[i].node.lo < start + S.Len(chunk, power)
    decreases |segments|
  {
    if segments == [] then S.Done(S.Nil)
    else
      var n := |segments| - 1;
      match Build(segments[..n], states[..n], start, chunk, power)
      case Done(t) =>
        S.Allocate(t, chunk, power, segments[n].node.lo - start, segments[n].size, states[n],
                   StatusOf(segments[n].kind))
      case other => other
  }

  /** The place is among the requested bytes of a block. */
  predicate Requested(segments: seq<B.Segment>, start: nat, p: nat) {
    exists s :: s in segments && s.node.lo <= start + p < s.node.lo + s.size
  }

  ghost predicate Found(segments: seq<B.Segment>, start: nat, chunk: nat, power: nat) {
    forall i | 0 <= i < |segments| ::
      && segments[i].node.len > 0 && start <= segments[i].node.lo < start + S.Len(chunk, power)
      && B.Locate(segments[i].node.lo, segments[i].size, start, chunk, power) == B.Some(segments[i].node)
  }

  ghost predicate BuiltAs(segments: seq<B.Segment>, t: S.Tree, start: nat, chunk: nat, power: nat) {
    && S.Valid(t, chunk) && Matches(t, chunk, power, start, segments)
    && forall p: nat | p < S.Len(chunk, power) :: S.Writable(t, chunk, power, p) <==> Requested(segments, start, p)
  }

  /** Blocks that are apart build a valid tree in which exactly their requested bytes are
    * writable. */
  lemma {:induction false} BuildMeans(segments: seq<B.Segment>, states: seq<S.MemState>, start: nat, chunk: nat,
                                      power: nat)
    returns (t: S.Tree)
    requires chunk > 0 && |states| == |segments| && Found(segments, start, chunk, power) && B.AllApart(segments)
    requires forall i | 0 <= i < |states| :: !states[i].Unknown?
    ensures Build(segments, states, start, chunk, power) == S.Done(t) && BuiltAs(segments, t, start, chunk, power)
    decreases |segments|
  {
    if segments == [] {
      t := S.Nil;
      NothingBuilt(start, chunk, power);
    } else {
      var n := |segments| - 1;
      PrefixFound(segments, n, start, chunk, power);
      var before := BuildMeans(segments[..n], states[..n], start, chunk, power);
      t := BuildOneMore(segments, states, start, chunk, power, before);
    }
  }

  lemma BuildOneMore(segments: seq<B.Segment>, states: seq<S.MemState>, start: nat, chunk: nat, power: nat,
                     before: S.Tree) returns (t: S.Tree)
    requires chunk > 0 && |states| == |segments| > 0 && Found(segments, start, chunk, power) && B.AllApart(segments)
    requires var n := |segments| - 1;
      && !states[n].Unknown? && BuiltAs(segments[..n], before, start, chunk, power)
      && Build(segments[..n], states[..n], start, chunk, power) == S.Done(before)
    ensures Build(segments, states, start, chunk, power) == S.Done(t) && BuiltAs(segments, t, start, chunk, power)
  {
    var n := |segments| - 1;
    LastIsOneMore(segments);
    ApartIsFresh(segments, start, chunk, power);
    t := AllocateFresh(before, segments[..n], segments[n], segments, states[n], start, chunk, power);
    BuildStep(segments, states, start, chunk, power, before, t);
  }

  lemma LastIsOneMore(segments: seq<B.Segment>)
    requires segments != []
    ensures var n := |segments| - 1; OneMore(segments[..n], segments[n], segments)
  {
    var n := |segments| - 1;
    assert segments == segments[..n] + [segments[n]];
  }

  lemma BuildStep(segments: seq<B.Segment>, states: seq<S.MemState>, start: nat, chunk: nat, power: nat,
                  before: S.Tree, t: S.Tree)
    requires |states| == |segments| > 0 && Found(segments, start, chunk, power)
    requires var n := |segments| - 1;
      && Build(segments[..n], states[..n], start, chunk, power) == S.Done(before)
      && S.Allocate(before, chunk, power, segments[n].node.lo - start, segments[n].size, states[n],
                    StatusOf(segments[n].kind))
          == S.Done(t)
    ensures Build(segments, states, start, chunk, power) == S.Done(t)
  {
  }

  lemma NothingBuilt(start: nat, chunk: nat, power: nat)
    requires chunk > 0
    ensures BuiltAs([], S.Nil, start, chunk, power)
  {
    assert !Hits([], start, start + S.Len(chunk, power));
  }

  lemma PrefixFound(segments: seq<B.Segment>, n: nat, start: nat, chunk: nat, power: nat)
    requires n <= |segments| && Found(segments, start, chunk, power) && B.AllApart(segments)
    ensures Found(segments[..n], start, chunk, power) && B.AllApart(segments[..n])
  {
    forall i, j | 0 <= i < j < n ensures B.Apart(segments[..n][i].node, segments[..n][j].node) {
      assert B.Apart(segments[i].node, segments[j].node);
    }
  }

  lemma ApartIsFresh(segments: seq<B.Segment>, start: nat, chunk: nat, power: nat)
    requires segments != [] && Found(segments, start, chunk, power) && B.AllApart(segments)
    ensures var n := |segments| - 1; Fresh(segments[..n], segments[n], chunk, power, start)
  {
    var n := |segments| - 1;
    var s := segments[n];
    forall t | t in segments[..n] ensures !Overlaps(t.node, s.node.lo, s.node.End()) {
      var i :| 0 <= i < n && segments[i] == t;
      assert B.Apart(segments[i].node, segments[n].node);
    }
  }

  lemma AllocateFresh(before: S.Tree, segments: seq<B.Segment>, s: B.Segment, after: seq<B.Segment>, state: S.MemState,
                      start: nat, chunk: nat, power: nat) returns (t: S.Tree)
    requires chunk > 0 && BuiltAs(segments, before, start, chunk, power) && Fresh(segments, s, chunk, power, start)
    requires OneMore(segments, s, after) && !state.Unknown?
    ensures S.Allocate(before, chunk, power, s.node.lo - start, s.size, state, StatusOf(s.kind)) == S.Done(t)
    ensures BuiltAs(after, t, start, chunk, power)
  {
    var where := s.node.lo - start;
    MatchesMeansBlankAt(before, chunk, power, start, segments, s);
    t := S.AllocateMeans(before, chunk, power, where, s.size, state, StatusOf(s.kind), 0);
    AllocatedMatches(before, chunk, power, start, segments, s, after, state, StatusOf(s.kind), t);
    forall p: nat | p < S.Len(chunk, power)
      ensures S.Writable(t, chunk, power, p) <==> Requested(after, start, p)
    {
      var r := S.AllocateMeans(before, chunk, power, where, s.size, state, StatusOf(s.kind), p);
      assert Requested(after, start, p)
        <==> Requested(segments, start, p) || s.node.lo <= start + p < s.node.lo + s.size;
    }
  }

  // ---------- the trees of runs ----------

  /** Every block of a run is one that the descent finds. */
  lemma SegmentIsFound(h: B.Heap, i: nat)
    requires B.Inv(h) && i < |h.segments|
    ensures var s := h.segments[i];
      && s.node.len > 0 && h.start <= s.node.lo < h.start + h.size
      && B.Locate(s.node.lo, s.size, h.start, h.chunk, h.power) == B.Some(s.node)
  {
    var s := h.segments[i];
    var m, block := B.Doublings(s.size, h.chunk), s.node.len;
    assert B.SegmentOk(h, s) && B.ArenaOk(h, s.kind);
    B.RoundedIsLeast(s.size, h.chunk);
    B.RoundedFits(s.size, h);
    B.Product(h.chunk, m);
    if s.kind.Malloc? && m == h.power {
      WholeTreeIsNotInHalf(h, s.node.lo, block);
    } else {
      B.ArenaIsAligned(h, s.kind, m, block);
      B.AddMultiples(h.ArenaStart(s.kind) - h.start, s.node.lo - h.ArenaStart(s.kind), block);
      B.BlockInTree(h, s.size, m, block, s.node.lo - h.start);
    }
  }

  lemma WholeTreeIsNotInHalf(h: B.Heap, lo: nat, block: nat)
    requires h.IsTree() && block == h.size
    ensures !(h.ArenaStart(B.Malloc) <= lo && lo + block <= h.start + h.size)
  {
    B.Halves(h.chunk, h.power);
    B.Product(h.chunk, h.power - 1);
  }

  /** While the stack arena stays in its half, or nothing is on the heap, every run of the
    * allocator leaves a valid tree, whatever states the blocks were requested with, in which
    * a place is writable exactly if it was requested. */
  lemma RunsBuildTrees(start: nat, chunk: nat, power: nat, requests: seq<B.Request>, states: seq<S.MemState>)
    returns (t: S.Tree)
    requires chunk > 0 && power > 0
    requires var h := B.Run(B.Initial(start, chunk, power), requests);
      && (h.allocOffset <= h.size / 2 || h.mallocOffset == 0)
      && |states| == |h.segments|
    requires forall i | 0 <= i < |states| :: !states[i].Unknown?
    ensures var h := B.Run(B.Initial(start, chunk, power), requests);
      && Found(h.segments, start, chunk, power)
      && Build(h.segments, states, start, chunk, power) == S.Done(t) && S.Valid(t, chunk)
      && forall p: nat | p < S.Len(chunk, power) :: S.Writable(t, chunk, power, p) <==> Requested(h.segments, start, p)
  {
    var h := B.Run(B.Initial(start, chunk, power), requests);
    B.RunKeeps(start, chunk, power, requests);
    B.BlocksAreApartIff(start, chunk, power, requests);
    LenIsProduct(chunk, power);
    forall i | 0 <= i < |h.segments|
      ensures h.segments[i].node.len > 0 && start <= h.segments[i].node.lo < start + S.Len(chunk, power)
      ensures B.Locate(h.segments[i].node.lo, h.segments[i].size, start, chunk, power) == B.Some(h.segments[i].node)
    {
      SegmentIsFound(h, i);
    }
    t := BuildMeans(h.segments, states, start, chunk, power);
  }
}
