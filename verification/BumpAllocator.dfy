/** The executor's allocator: blocks are rounded up to a power of two of chunks, bumped
  * through one of two arenas, and marked in a binary tree over the whole address range. */
module BumpAllocator {
  import opened Bits

  const WORD: nat := 0x1_0000_0000_0000_0000

  // ---------- rounding ----------

  /** The sizes the doubling loop runs through, until one is large enough. */
  function Rounded(amount: nat, chunk: nat): (r: nat)
    requires chunk > 0
    ensures amount <= r && chunk <= r
    decreases amount - chunk
  {
    if amount <= chunk then chunk else Rounded(amount, 2 * chunk)
  }

  /** How often the loop doubles. */
  function Doublings(amount: nat, chunk: nat): nat
    requires chunk > 0
    decreases amount - chunk
  {
    if amount <= chunk then 0 else 1 + Doublings(amount, 2 * chunk)
  }

  /** The rounded size is the least chunk * 2^k that the amount fits in. */
  lemma {:induction false} RoundedIsLeast(amount: nat, chunk: nat)
    requires chunk > 0
    ensures Rounded(amount, chunk) == chunk * Pow2(Doublings(amount, chunk))
    ensures forall k: nat | k < Doublings(amount, chunk) :: chunk * Pow2(k) < amount
    decreases amount - chunk
  {
    if amount > chunk {
      RoundedIsLeast(amount, 2 * chunk);
      forall k: nat | k < Doublings(amount, chunk) ensures chunk * Pow2(k) < amount {
        if k > 0 {
          assert (2 * chunk) * Pow2(k - 1) < amount;
          Reassociate(chunk, Pow2(k - 1));
          DoubleFirst(chunk, Pow2(k - 1));
        }
      }
      var n := Doublings(amount, 2 * chunk);
      DoubleFirst(chunk, Pow2(n));
    } else {
      assert Pow2(0) == 1;
    }
  }

  lemma DoubleFirst(x: int, y: int)
    ensures (2 * x) * y == x * (2 * y)
  {
  }

  datatype Outcome = Placed(ptr: nat) | OutOfMemory | NoRoom

  const MAX_AMOUNT: nat := 0x8000_0000_0000_0000

  /** The doubling loop never leaves 64 bits.  None for what is out of memory. */
  method CalcRealMemoryAmount(amount: nat, chunkSize: nat) returns (ok: bool, block: nat)
    requires 0 < chunkSize < WORD
    ensures ok == (amount < MAX_AMOUNT)
    ensures ok ==> block == Rounded(amount, chunkSize) && block < WORD
  {
    if amount >= MAX_AMOUNT {
      return false, 0;
    }
    ok, block := true, chunkSize;
    while amount > block
      invariant 0 < block < WORD
      invariant Rounded(amount, block) == Rounded(amount, chunkSize)
      decreases amount - block
    {
      block := block * 2 % WORD;
    }
  }

  // ---------- placing ----------

  /** The first multiple of `block` at or above the offset. */
  function Place(offset: nat, block: nat): (p: nat)
    requires block > 0
  {
    if offset % block == 0 then offset else (offset / block + 1) * block
  }

  lemma PlaceIsLeast(offset: nat, block: nat)
    requires block > 0
    ensures var p := Place(offset, block);
      && p % block == 0 && offset <= p < offset + block
      && forall q: nat | offset <= q && q % block == 0 :: p <= q
  {
    PlaceIsMultiple(offset, block);
    forall q: nat | offset <= q && q % block == 0 ensures Place(offset, block) <= q {
      PlaceIsBelow(offset, block, q);
    }
  }

  lemma PlaceIsMultiple(offset: nat, block: nat)
    requires block > 0
    ensures var p := Place(offset, block); p % block == 0 && offset <= p < offset + block
  {
    var d, r := offset / block, offset % block;
    DivMod(offset, block);
    OneMore(d, block);
    if r != 0 {
      DivUnique(Place(offset, block), block, d + 1, 0);
    }
  }

  lemma PlaceIsBelow(offset: nat, block: nat, q: nat)
    requires block > 0 && offset <= q && q % block == 0
    ensures Place(offset, block) <= q
  {
    var d, e := offset / block, q / block;
    DivMod(offset, block);
    DivMod(q, block);
    OneMore(e, block);
    OneMore(d, block);
    MulMonotone(e + 1, d + 1, block);
    MulMonotone(d + 1, e, block);
  }

  lemma OneMore(d: int, block: int)
    ensures (d + 1) * block == d * block + block
  {
  }

  // ---------- the tree ----------

  datatype Node = Node(lo: nat, len: nat) {
    function End(): nat {
      lo + len
    }
  }

  datatype Option<T> = None | Some(value: T)

  /** The node that an allocation marks, on the way down from a node of 2^k chunks.  None
    * where the program's assertions stop it. */
  function Locate(where: nat, size: nat, lo: nat, chunk: nat, k: nat): Option<Node>
    decreases k
  {
    var len := chunk * Pow2(k);
    if !(lo <= where < lo + len) || size > len then None
    else if k == 0 || (lo == where && len / 2 < size) then Some(Node(lo, len))
    else
      var mid := lo + len / 2;
      if where < mid then Locate(where, size, lo, chunk, k - 1)
      else Locate(where, size, mid, chunk, k - 1)
  }

  lemma Halves(chunk: nat, k: nat)
    requires k > 0
    ensures chunk * Pow2(k) == 2 * (chunk * Pow2(k - 1)) && chunk * Pow2(k) / 2 == chunk * Pow2(k - 1)
  {
    Reassociate(chunk, Pow2(k - 1));
  }

  /** A block that is aligned to its rounded size is a node of the tree. */
  lemma {:induction false} LocateAligned(where: nat, size: nat, lo: nat, chunk: nat, k: nat, m: nat)
    requires chunk > 0 && m <= k && size <= chunk * Pow2(m)
    requires m == 0 || chunk * Pow2(m - 1) < size
    requires lo <= where < lo + chunk * Pow2(k) && (where - lo) % (chunk * Pow2(m)) == 0
    ensures Locate(where, size, lo, chunk, k) == Some(Node(where, chunk * Pow2(m)))
    decreases k
  {
    var block, len := chunk * Pow2(m), chunk * Pow2(k);
    Product(chunk, m);
    if m == k {
      assert where - lo == 0 by { SmallMod(where - lo, len); }
      if k > 0 {
        Halves(chunk, k);
      }
    } else {
      Halves(chunk, k);
      Nested(chunk, m, k - 1);
      var half := chunk * Pow2(k - 1);
      assert block <= half <= len;
      if where < lo + half {
        LocateAligned(where, size, lo, chunk, k - 1, m);
      } else {
        MultipleLess(where - lo, half, block);
        LocateAligned(where, size, lo + half, chunk, k - 1, m);
      }
    }
  }

  lemma Product(chunk: nat, m: nat)
    requires chunk > 0
    ensures chunk * Pow2(m) > 0
  {
    MulSign(chunk, Pow2(m));
  }

  /** A larger node is a whole number of smaller ones. */
  lemma Nested(chunk: nat, m: nat, k: nat)
    requires chunk > 0 && m <= k
    ensures chunk * Pow2(m) > 0 && chunk * Pow2(m) <= chunk * Pow2(k)
    ensures chunk * Pow2(k) % (chunk * Pow2(m)) == 0
  {
    Product(chunk, m);
    PowAdds(m, k - m);
    var e, block := Pow2(k - m), chunk * Pow2(m);
    Associate(chunk, Pow2(m), e);
    Commute(block, e);
    assert chunk * Pow2(k) == e * block;
    DivUnique(e * block, block, e, 0);
    MulMonotone(1, e, block);
  }

  lemma Associate(x: int, y: int, z: int)
    ensures x * (y * z) == (x * y) * z
  {
  }

  lemma MultipleLess(a: nat, b: nat, d: nat)
    requires d > 0 && a >= b && a % d == 0 && b % d == 0
    ensures (a - b) % d == 0
  {
    assert a == (a / d) * d && b == (b / d) * d;
    assert a - b == (a / d - b / d) * d;
    DivUnique(a - b, d, a / d - b / d, 0);
  }

  /** Multiples of d are at least d apart. */
  lemma MultiplesApart(a: nat, b: nat, d: nat)
    requires d > 0 && a < b && a % d == 0 && b % d == 0
    ensures a + d <= b
  {
    assert a == (a / d) * d && b == (b / d) * d;
    MulMonotone(b / d, a / d, d);
    MulMonotone(a / d + 1, b / d, d);
    assert (a / d + 1) * d == (a / d) * d + d;
  }

  // ---------- the allocator ----------

  datatype Kind = Alloca | Malloc

  datatype Segment = Segment(node: Node, size: nat, kind: Kind)

  /** The tree spans `size` bytes from `start`; the malloc arena is its upper half. */
  datatype Heap = Heap(start: nat, chunk: nat, power: nat, size: nat,
                       allocOffset: nat, mallocOffset: nat, segments: seq<Segment>) {
    /** The tree is 2^power chunks. */
    predicate IsTree() {
      chunk > 0 && power > 0 && size == chunk * Pow2(power)
    }

    function ArenaStart(kind: Kind): nat {
      if kind.Alloca? then start else start + size / 2
    }

    function Offset(kind: Kind): nat {
      if kind.Alloca? then allocOffset else mallocOffset
    }

    function Bump(kind: Kind, offset: nat, s: Segment): Heap {
      Heap(start, chunk, power, size,
           if kind.Alloca? then offset else allocOffset,
           if kind.Malloc? then offset else mallocOffset,
           segments + [s])
    }
  }

  /** One allocation.  Running out leaves everything as it was. */
  function Allocate(h: Heap, kind: Kind, amount: nat): (Heap, Outcome)
    requires h.chunk > 0
  {
    if amount >= MAX_AMOUNT then (h, OutOfMemory)
    else
      var block := Rounded(amount, h.chunk);
      var ptr := h.ArenaStart(kind) + Place(h.Offset(kind), block);
      if amount > h.size then (h, OutOfMemory)
      else
        match Locate(ptr, amount, h.start, h.chunk, h.power)
        case None => (h, NoRoom)
        case Some(node) =>
          (h.Bump(kind, ptr + block - h.ArenaStart(kind), Segment(node, amount, kind)), Placed(ptr))
  }

  /** The block lies at its pointer, has the rounded size, and ends where the tree allows. */
  lemma AllocateMeans(h: Heap, kind: Kind, amount: nat)
    requires h.IsTree()
    ensures var (g, out) := Allocate(h, kind, amount);
      var block := Rounded(amount, h.chunk);
      var place := Place(h.Offset(kind), block);
      var ptr := h.ArenaStart(kind) + place;
      && (out.OutOfMemory? <==> amount >= MAX_AMOUNT || amount > h.size)
      && (out.Placed? <==> amount < MAX_AMOUNT && ptr + block <= h.start + h.size)
      && (out.Placed? ==> out.ptr == ptr && g == h.Bump(kind, place + block, Segment(Node(ptr, block), amount, kind)))
      && (!out.Placed? ==> g == h)
  {
    if amount < MAX_AMOUNT && amount <= h.size {
      var m := Doublings(amount, h.chunk);
      var block := Rounded(amount, h.chunk);
      RoundedIsLeast(amount, h.chunk);
      PlaceIsLeast(h.Offset(kind), block);
      RoundedFits(amount, h);
      Nested(h.chunk, m, h.power);
      Halves(h.chunk, h.power);
      if kind.Alloca? || m < h.power {
        AlignedInTree(h, kind, amount, m, block);
      } else {
        TooLargeForHalf(h, amount, block);
      }
    } else {
      assert amount <= Rounded(amount, h.chunk);
    }
  }

  lemma RoundedFits(amount: nat, h: Heap)
    requires h.IsTree() && amount <= h.size
    ensures Doublings(amount, h.chunk) <= h.power
  {
    RoundedIsLeast(amount, h.chunk);
    assert h.power < Doublings(amount, h.chunk) ==> h.chunk * Pow2(h.power) < amount;
  }

  lemma AlignedInTree(h: Heap, kind: Kind, amount: nat, m: nat, block: nat)
    requires h.IsTree() && m == Doublings(amount, h.chunk)
    requires block == Rounded(amount, h.chunk) == h.chunk * Pow2(m) && m <= h.power
    requires kind.Alloca? || m < h.power
    requires Place(h.Offset(kind), block) % block == 0
    ensures var ptr := h.ArenaStart(kind) + Place(h.Offset(kind), block);
      Locate(ptr, amount, h.start, h.chunk, h.power)
        == if ptr + block <= h.start + h.size then Some(Node(ptr, block)) else None
  {
    var shift := h.ArenaStart(kind) - h.start + Place(h.Offset(kind), block);
    ArenaIsAligned(h, kind, m, block);
    AddMultiples(h.ArenaStart(kind) - h.start, Place(h.Offset(kind), block), block);
    BlockInTree(h, amount, m, block, shift);
  }

  lemma BlockInTree(h: Heap, amount: nat, m: nat, block: nat, shift: nat)
    requires h.IsTree() && m == Doublings(amount, h.chunk) && m <= h.power
    requires block == Rounded(amount, h.chunk) == h.chunk * Pow2(m) && shift % block == 0
    ensures Locate(h.start + shift, amount, h.start, h.chunk, h.power)
      == if shift + block <= h.size then Some(Node(h.start + shift, block)) else None
  {
    RoundedIsLeast(amount, h.chunk);
    Nested(h.chunk, m, h.power);
    if shift < h.size {
      MultiplesApart(shift, h.size, block);
      LocateAligned(h.start + shift, amount, h.start, h.chunk, h.power, m);
    }
  }

  lemma ArenaIsAligned(h: Heap, kind: Kind, m: nat, block: nat)
    requires h.IsTree() && block == h.chunk * Pow2(m) && block > 0
    requires kind.Alloca? || m < h.power
    ensures (h.ArenaStart(kind) - h.start) % block == 0
  {
    var shift := h.ArenaStart(kind) - h.start;
    if kind.Malloc? {
      HalfIsMultiple(h.chunk, m, h.power, block);
      assert shift == h.size / 2;
    } else {
      SmallMod(shift, block);
    }
  }

  lemma HalfIsMultiple(chunk: nat, m: nat, power: nat, block: nat)
    requires chunk > 0 && m < power && block == chunk * Pow2(m) && block > 0
    ensures chunk * Pow2(power) / 2 % block == 0
  {
    Halves(chunk, power);
    Nested(chunk, m, power - 1);
  }

  lemma AddMultiples(a: nat, b: nat, d: nat)
    requires d > 0 && a % d == 0 && b % d == 0
    ensures (a + b) % d == 0
  {
    assert a == (a / d) * d && b == (b / d) * d;
    assert a + b == (a / d + b / d) * d;
    DivUnique(a + b, d, a / d + b / d, 0);
  }

  /** What needs the whole tree does not fit in the upper half. */
  lemma TooLargeForHalf(h: Heap, amount: nat, block: nat)
    requires h.IsTree() && block == Rounded(amount, h.chunk) == h.size
    requires Doublings(amount, h.chunk) == h.power
    ensures var ptr := h.ArenaStart(Malloc) + Place(h.mallocOffset, block);
      && ptr + block > h.start + h.size
      && Locate(ptr, amount, h.start, h.chunk, h.power) == None
  {
    RoundedIsLeast(amount, h.chunk);
    Halves(h.chunk, h.power);
    Product(h.chunk, h.power - 1);
    assert h.chunk * Pow2(h.power - 1) < amount;
    var ptr := h.ArenaStart(Malloc) + Place(h.mallocOffset, block);
    var mid := h.start + h.size / 2;
    assert ptr >= mid > h.start;
    assert Locate(ptr, amount, mid, h.chunk, h.power - 1) == None;
  }

  // ---------- runs ----------

  datatype Request = Request(kind: Kind, amount: nat)

  function Initial(start: nat, chunk: nat, power: nat): Heap {
    Heap(start, chunk, power, chunk * Pow2(power), 0, 0, [])
  }

  /** A run of requests, successful or not. */
  function Run(h: Heap, requests: seq<Request>): Heap
    requires h.chunk > 0
    decreases |requests|
  {
    if requests == [] then h
    else
      var n := |requests| - 1;
      var g := Run(h, requests[..n]);
      if g.chunk > 0 then Allocate(g, requests[n].kind, requests[n].amount).0 else g
  }

  predicate Apart(a: Node, b: Node) {
    a.End() <= b.lo || b.End() <= a.lo
  }

  function TotalOf(segments: seq<Segment>, kind: Kind): nat
    decreases |segments|
  {
    if segments == [] then 0
    else
      var n := |segments| - 1;
      TotalOf(segments[..n], kind) + (if segments[n].kind == kind then segments[n].node.len else 0)
  }

  function CountOf(segments: seq<Segment>, kind: Kind): nat
    decreases |segments|
  {
    if segments == [] then 0
    else
      var n := |segments| - 1;
      CountOf(segments[..n], kind) + (if segments[n].kind == kind then 1 else 0)
  }

  ghost predicate SegmentOk(h: Heap, s: Segment)
    requires h.chunk > 0
  {
    && s.node.len == Rounded(s.size, h.chunk)
    && h.ArenaStart(s.kind) <= s.node.lo
    && (s.node.lo - h.ArenaStart(s.kind)) % s.node.len == 0
    && s.node.End() <= h.ArenaStart(s.kind) + h.Offset(s.kind)
  }

  /** What every run keeps: each block has the least size that fits, is aligned to it within
    * its arena, lies below the arena's offset and apart from every earlier block of its
    * arena; the offset stays within twice the rounded sizes, less a chunk for each block. */
  ghost predicate Inv(h: Heap) {
    && h.IsTree()
    && (forall i | 0 <= i < |h.segments| :: SegmentOk(h, h.segments[i]))
    && (forall i, j | 0 <= i < j < |h.segments| && h.segments[i].kind == h.segments[j].kind ::
          Apart(h.segments[i].node, h.segments[j].node))
    && (forall kind: Kind :: ArenaOk(h, kind))
  }

  ghost predicate ArenaOk(h: Heap, kind: Kind)
    requires h.chunk > 0
  {
    && h.ArenaStart(kind) + h.Offset(kind) <= h.start + h.size
    && Economical(h.Offset(kind), h.segments, kind, h.chunk)
  }

  ghost predicate Economical(offset: nat, segments: seq<Segment>, kind: Kind, chunk: nat)
    requires chunk > 0
  {
    offset % chunk == 0 && offset + CountOf(segments, kind) * chunk <= 2 * TotalOf(segments, kind)
  }

  lemma AllocateKeeps(h: Heap, kind: Kind, amount: nat)
    requires Inv(h)
    ensures Inv(Allocate(h, kind, amount).0)
  {
    var block := Rounded(amount, h.chunk);
    var place := Place(h.Offset(kind), block);
    var s := Segment(Node(h.ArenaStart(kind) + place, block), amount, kind);
    AllocateBumps(h, kind, amount, place, s);
    if Allocate(h, kind, amount).1.Placed? {
      BumpKeeps(h, kind, amount, place, block, s);
    }
  }

  lemma BumpKeeps(h: Heap, kind: Kind, amount: nat, place: nat, block: nat, s: Segment)
    requires Inv(h) && block == Rounded(amount, h.chunk) && place == Place(h.Offset(kind), block)
    requires s == Segment(Node(h.ArenaStart(kind) + place, block), amount, kind)
    requires h.ArenaStart(kind) + place + block <= h.start + h.size
    ensures Inv(h.Bump(kind, place + block, s))
  {
    BumpKeepsSegments(h, kind, amount, place, block, s);
    BumpKeepsApart(h, kind, amount, place, block, s);
    BumpKeepsArena(h, kind, amount, place, block, s, Alloca);
    BumpKeepsArena(h, kind, amount, place, block, s, Malloc);
  }

  lemma BumpKeepsSegments(h: Heap, kind: Kind, amount: nat, place: nat, block: nat, s: Segment)
    requires Inv(h) && block == Rounded(amount, h.chunk) && place == Place(h.Offset(kind), block)
    requires s == Segment(Node(h.ArenaStart(kind) + place, block), amount, kind)
    ensures var g := h.Bump(kind, place + block, s);
      forall i | 0 <= i < |g.segments| :: SegmentOk(g, g.segments[i])
  {
    var g := h.Bump(kind, place + block, s);
    PlaceIsMultiple(h.Offset(kind), block);
    forall i | 0 <= i < |h.segments| ensures SegmentOk(g, g.segments[i]) {
      assert SegmentOk(h, h.segments[i]);
      StaysOk(h, kind, place + block, s, h.segments[i]);
    }
    assert SegmentOk(g, s);
  }

  lemma StaysOk(h: Heap, kind: Kind, offset: nat, s: Segment, t: Segment)
    requires h.chunk > 0 && SegmentOk(h, t) && h.Offset(kind) <= offset
    ensures SegmentOk(h.Bump(kind, offset, s), t)
  {
  }

  lemma BumpKeepsApart(h: Heap, kind: Kind, amount: nat, place: nat, block: nat, s: Segment)
    requires Inv(h) && block == Rounded(amount, h.chunk) && place == Place(h.Offset(kind), block)
    requires s == Segment(Node(h.ArenaStart(kind) + place, block), amount, kind)
    ensures var g := h.Bump(kind, place + block, s);
      forall i, j | 0 <= i < j < |g.segments| && g.segments[i].kind == g.segments[j].kind ::
        Apart(g.segments[i].node, g.segments[j].node)
  {
    PlaceIsMultiple(h.Offset(kind), block);
    forall i | 0 <= i < |h.segments| && h.segments[i].kind == kind
      ensures h.segments[i].node.End() <= s.node.lo
    {
      assert SegmentOk(h, h.segments[i]);
    }
  }

  lemma BumpKeepsArena(h: Heap, kind: Kind, amount: nat, place: nat, block: nat, s: Segment, k: Kind)
    requires Inv(h) && block == Rounded(amount, h.chunk) && place == Place(h.Offset(kind), block)
    requires s == Segment(Node(h.ArenaStart(kind) + place, block), amount, kind)
    requires h.ArenaStart(kind) + place + block <= h.start + h.size
    ensures ArenaOk(h.Bump(kind, place + block, s), k)
  {
    assert ArenaOk(h, k);
    StaysEconomical(h.Offset(k), h.segments, s, amount, h.chunk, k);
    BumpedArena(h, kind, place + block, s, k);
  }

  lemma BumpedArena(h: Heap, kind: Kind, offset: nat, s: Segment, k: Kind)
    requires h.chunk > 0 && ArenaOk(h, k) && h.ArenaStart(kind) + offset <= h.start + h.size
    requires Economical(if k == kind then offset else h.Offset(k), h.segments + [s], k, h.chunk)
    ensures ArenaOk(h.Bump(kind, offset, s), k)
  {
  }

  lemma StaysEconomical(offset: nat, segments: seq<Segment>, s: Segment, amount: nat, chunk: nat, k: Kind)
    requires chunk > 0 && Economical(offset, segments, k, chunk) && s.node.len == Rounded(amount, chunk)
    ensures s.kind != k ==> Economical(offset, segments + [s], k, chunk)
    ensures s.kind == k ==>
      Economical(Place(offset, s.node.len) + s.node.len, segments + [s], k, chunk)
  {
    assert (segments + [s])[..|segments|] == segments;
    WholeChunks(chunk, amount, offset);
    var n := CountOf(segments, k);
    assert (n + 1) * chunk == n * chunk + chunk;
  }

  /** Rounded sizes are whole chunks, so rounding up to them wastes whole chunks. */
  lemma WholeChunks(chunk: nat, amount: nat, offset: nat)
    requires chunk > 0 && offset % chunk == 0
    ensures var rounded := Rounded(amount, chunk);
      && (Place(offset, rounded) + rounded) % chunk == 0
      && Place(offset, rounded) + chunk <= offset + rounded
  {
    var rounded := Rounded(amount, chunk);
    var m := Doublings(amount, chunk);
    RoundedIsLeast(amount, chunk);
    Commute(chunk, Pow2(m));
    DivUnique(rounded, chunk, Pow2(m), 0);
    PlaceIsLeast(offset, rounded);
    var p := Place(offset, rounded);
    assert p == (p / rounded) * rounded;
    Associate(p / rounded, Pow2(m), chunk);
    DivUnique(p, chunk, p / rounded * Pow2(m), 0);
    AddMultiples(p, rounded, chunk);
    AddMultiples(offset, rounded, chunk);
    MultiplesApart(p, offset + rounded, chunk);
  }

  /** Every run keeps the invariant. */
  lemma {:induction false} RunKeeps(start: nat, chunk: nat, power: nat, requests: seq<Request>)
    requires chunk > 0 && power > 0
    ensures var h := Run(Initial(start, chunk, power), requests);
      Inv(h) && h.start == start && h.chunk == chunk && h.power == power
    decreases |requests|
  {
    if requests == [] {
      Halves(chunk, power);
    } else {
      var n := |requests| - 1;
      RunKeeps(start, chunk, power, requests[..n]);
      var g := Run(Initial(start, chunk, power), requests[..n]);
      AllocateKeeps(g, requests[n].kind, requests[n].amount);
    }
  }

  /** Where the arenas meet. */
  function Middle(h: Heap): nat {
    h.start + h.size / 2
  }

  /** A stack arena beyond its half has a block across the middle, and a heap arena in use
    * has one that starts there. */
  ghost predicate MiddleIsTaken(h: Heap) {
    && (h.allocOffset > h.size / 2 ==>
          exists s :: s in h.segments && s.kind.Alloca? && s.node.lo <= Middle(h) < s.node.End())
    && (h.mallocOffset > 0 ==>
          exists s :: s in h.segments && s.kind.Malloc? && s.node.lo == Middle(h))
  }

  /** The first stack block to leave the lower half starts in it. */
  lemma PlacedAcross(h: Heap, amount: nat)
    requires Inv(h) && h.allocOffset <= h.size / 2 && Allocate(h, Alloca, amount).1.Placed?
    ensures Place(h.allocOffset, Rounded(amount, h.chunk)) <= h.size / 2
  {
    AllocateMeans(h, Alloca, amount);
    var m, block := Doublings(amount, h.chunk), Rounded(amount, h.chunk);
    RoundedIsLeast(amount, h.chunk);
    RoundedFits(amount, h);
    PlaceIsLeast(h.allocOffset, block);
    if m < h.power {
      HalfIsMultiple(h.chunk, m, h.power, block);
    } else {
      WholeTreeAtZero(Place(h.allocOffset, block), h.size);
    }
  }

  lemma WholeTreeAtZero(place: nat, size: nat)
    requires size > 0 && place % size == 0 && place + size <= size
    ensures place == 0
  {
  }

  lemma AllocateKeepsMiddle(h: Heap, kind: Kind, amount: nat)
    requires Inv(h) && MiddleIsTaken(h)
    ensures MiddleIsTaken(Allocate(h, kind, amount).0)
  {
    var block := Rounded(amount, h.chunk);
    var place := Place(h.Offset(kind), block);
    var s := Segment(Node(h.ArenaStart(kind) + place, block), amount, kind);
    AllocateBumps(h, kind, amount, place, s);
    if Allocate(h, kind, amount).1.Placed? {
      MiddlePlace(h, kind, amount, block, place);
      BumpKeepsMiddle(h, kind, place, s);
    }
  }

  lemma AllocateBumps(h: Heap, kind: Kind, amount: nat, place: nat, s: Segment)
    requires h.IsTree() && place == Place(h.Offset(kind), Rounded(amount, h.chunk))
    requires s == Segment(Node(h.ArenaStart(kind) + place, Rounded(amount, h.chunk)), amount, kind)
    ensures var (g, out) := Allocate(h, kind, amount);
      && g == (if out.Placed? then h.Bump(kind, place + s.node.len, s) else h)
      && (out.Placed? ==> h.ArenaStart(kind) + place + s.node.len <= h.start + h.size)
  {
    AllocateMeans(h, kind, amount);
  }

  lemma MiddlePlace(h: Heap, kind: Kind, amount: nat, block: nat, place: nat)
    requires Inv(h) && block == Rounded(amount, h.chunk) && place == Place(h.Offset(kind), block)
    requires Allocate(h, kind, amount).1.Placed?
    ensures kind.Alloca? && h.allocOffset <= h.size / 2 ==> place <= h.size / 2
    ensures kind.Malloc? && h.mallocOffset == 0 ==> place == 0
  {
    if kind.Malloc? {
      PlaceOfZero(block);
    } else if h.allocOffset <= h.size / 2 {
      PlacedAcross(h, amount);
    }
  }

  lemma BumpKeepsMiddle(h: Heap, kind: Kind, place: nat, s: Segment)
    requires MiddleIsTaken(h) && s.kind == kind && s.node.lo == h.ArenaStart(kind) + place
    requires kind.Alloca? && h.allocOffset <= h.size / 2 ==> place <= h.size / 2
    requires kind.Malloc? && h.mallocOffset == 0 ==> place == 0
    ensures MiddleIsTaken(h.Bump(kind, place + s.node.len, s))
  {
    var g := h.Bump(kind, place + s.node.len, s);
    assert s in g.segments;
    assert forall t | t in h.segments :: t in g.segments;
  }

  lemma PlaceOfZero(block: nat)
    requires block > 0
    ensures Place(0, block) == 0
  {
    SmallMod(0, block);
  }

  lemma {:induction false} RunKeepsMiddle(start: nat, chunk: nat, power: nat, requests: seq<Request>)
    requires chunk > 0 && power > 0
    ensures MiddleIsTaken(Run(Initial(start, chunk, power), requests))
    decreases |requests|
  {
    if requests != [] {
      var n := |requests| - 1;
      RunKeepsMiddle(start, chunk, power, requests[..n]);
      RunKeeps(start, chunk, power, requests[..n]);
      AllocateKeepsMiddle(Run(Initial(start, chunk, power), requests[..n]), requests[n].kind, requests[n].amount);
    }
  }

  ghost predicate AllApart(segments: seq<Segment>) {
    forall i, j | 0 <= i < j < |segments| :: Apart(segments[i].node, segments[j].node)
  }

  lemma SeparateArenas(h: Heap)
    requires Inv(h) && (h.allocOffset <= h.size / 2 || h.mallocOffset == 0)
    ensures AllApart(h.segments)
  {
    forall i, j | 0 <= i < j < |h.segments| ensures Apart(h.segments[i].node, h.segments[j].node) {
      assert SegmentOk(h, h.segments[i]) && SegmentOk(h, h.segments[j]);
    }
  }

  lemma MeetingArenas(h: Heap)
    requires Inv(h) && MiddleIsTaken(h) && h.allocOffset > h.size / 2 && h.mallocOffset > 0
    ensures !AllApart(h.segments)
  {
    var s :| s in h.segments && s.kind.Alloca? && s.node.lo <= Middle(h) < s.node.End();
    var t :| t in h.segments && t.kind.Malloc? && t.node.lo == Middle(h);
    var i :| 0 <= i < |h.segments| && h.segments[i] == s;
    var j :| 0 <= j < |h.segments| && h.segments[j] == t;
    assert SegmentOk(h, h.segments[j]);
    assert t.node.len > 0;
    CommonPlace(h.segments, i, j, Middle(h));
  }

  lemma CommonPlace(segments: seq<Segment>, i: nat, j: nat, p: nat)
    requires i < |segments| && j < |segments| && i != j
    requires segments[i].node.lo <= p < segments[i].node.End() && segments[j].node.lo <= p < segments[j].node.End()
    ensures !AllApart(segments)
  {
    var a, b := if i < j then i else j, if i < j then j else i;
    assert !Apart(segments[a].node, segments[b].node);
  }

  /** The blocks of both arenas are all apart exactly if the stack arena has stayed in its
    * half or nothing is on the heap. */
  lemma BlocksAreApartIff(start: nat, chunk: nat, power: nat, requests: seq<Request>)
    requires chunk > 0 && power > 0
    ensures var h := Run(Initial(start, chunk, power), requests);
      AllApart(h.segments) <==> h.allocOffset <= h.size / 2 || h.mallocOffset == 0
  {
    RunKeeps(start, chunk, power, requests);
    RunKeepsMiddle(start, chunk, power, requests);
    var h := Run(Initial(start, chunk, power), requests);
    if h.allocOffset <= h.size / 2 || h.mallocOffset == 0 {
      SeparateArenas(h);
    } else {
      MeetingArenas(h);
    }
  }

  /** Nothing keeps the stack arena in its half: with one chunk each, a second stack block
    * lies where the first heap block then is placed. */
  lemma StackRunsIntoHeap(start: nat, chunk: nat)
    requires 0 < chunk
    ensures var h := Initial(start, chunk, 1);
      var (h1, p1) := Allocate(h, Alloca, 1);
      var (h2, p2) := Allocate(h1, Alloca, 1);
      var (h3, p3) := Allocate(h2, Malloc, 1);
      p1 == Placed(start) && p2 == Placed(start + chunk) && p3 == Placed(start + chunk)
  {
    assert Pow2(1) == 2 && Pow2(0) == 1;
    var h := Initial(start, chunk, 1);
    assert h.size == 2 * chunk;
    assert Rounded(1, chunk) == chunk;
    assert chunk % chunk == 0;
    AllocateMeans(h, Alloca, 1);
    var h1 := Allocate(h, Alloca, 1).0;
    AllocateMeans(h1, Alloca, 1);
    var h2 := Allocate(h1, Alloca, 1).0;
    AllocateMeans(h2, Malloc, 1);
  }

  // ---------- the allocator as the program runs it ----------

  /** An allocation from the place that has been computed and what the tree has answered. */
  lemma AllocateIs(h: Heap, kind: Kind, amount: nat, block: nat, ptr: nat, segments: seq<Segment>, out: Outcome)
    requires h.chunk > 0 && amount < MAX_AMOUNT && block == Rounded(amount, h.chunk)
    requires ptr == h.ArenaStart(kind) + Place(h.Offset(kind), block)
    requires amount > h.size ==> out == OutOfMemory && segments == h.segments
    requires amount <= h.size ==>
      match Locate(ptr, amount, h.start, h.chunk, h.power)
      case None => out == NoRoom && segments == h.segments
      case Some(node) => out == Placed(ptr) && segments == h.segments + [Segment(node, amount, kind)]
    ensures var offset := if out.Placed? then ptr + block - h.ArenaStart(kind) else h.Offset(kind);
      Allocate(h, kind, amount) ==
        (if kind.Alloca? then h.(allocOffset := offset, segments := segments)
         else h.(mallocOffset := offset, segments := segments), out)
  {
  }

  /** The first place from the offset on that is aligned to the block. */
  method NextPlace(arenaStart: nat, offset: nat, block: nat) returns (ptr: nat)
    requires block > 0
    ensures ptr == arenaStart + Place(offset, block)
  {
    ptr := arenaStart + offset;
    if offset % block != 0 {
      ptr := arenaStart + (offset / block + 1) * block;
    }
  }

  class MemorySimulator {
    const start: nat
    const chunkSize: nat
    const power: nat
    const size: nat
    var currentAllocOffset: nat
    var currentMallocOffset: nat
    var segments: seq<Segment>

    function Snapshot(): Heap
      reads this
    {
      Heap(start, chunkSize, power, size, currentAllocOffset, currentMallocOffset, segments)
    }

    ghost predicate Valid()
      reads this
    {
      Inv(Snapshot()) && start + 3 * size < WORD
    }

    constructor (grain: nat, multiplier: nat, power: nat)
      requires grain > 0 && multiplier > 0 && power > 0
      requires 0x10_0000 + 3 * (multiplier * grain * Pow2(power)) < WORD
      ensures Valid() && Snapshot() == Initial(0x10_0000, multiplier * grain, power)
    {
      start, chunkSize, this.power := 0x10_0000, multiplier * grain, power;
      size := multiplier * grain * Pow2(power);
      currentAllocOffset, currentMallocOffset, segments := 0, 0, [];
      MulSign(multiplier, grain);
      RunKeeps(0x10_0000, multiplier * grain, power, []);
    }

    method AllocateMemory(amount: nat) returns (out: Outcome)
      requires Valid()
      modifies this
      ensures Valid() && (Snapshot(), out) == Allocate(old(Snapshot()), Alloca, amount)
    {
      AllocateKeeps(Snapshot(), Alloca, amount);
      ChunkIsWord(Snapshot());
      var ok, block := CalcRealMemoryAmount(amount, chunkSize);
      if !ok {
        return OutOfMemory;
      }
      var ptr := NextPlace(start, currentAllocOffset, block);
      ghost var h := Snapshot();
      out := TreeAllocate(ptr, amount, Alloca);
      AllocateIs(h, Alloca, amount, block, ptr, segments, out);
      if out.Placed? {
        currentAllocOffset := ptr + block - start;
      }
    }

    method MallocMemory(amount: nat) returns (out: Outcome)
      requires Valid()
      modifies this
      ensures Valid() && (Snapshot(), out) == Allocate(old(Snapshot()), Malloc, amount)
    {
      AllocateKeeps(Snapshot(), Malloc, amount);
      ChunkIsWord(Snapshot());
      var ok, block := CalcRealMemoryAmount(amount, chunkSize);
      if !ok {
        return OutOfMemory;
      }
      var mallocStart := start + size / 2;
      var ptr := NextPlace(mallocStart, currentMallocOffset, block);
      ghost var h := Snapshot();
      out := TreeAllocate(ptr, amount, Malloc);
      AllocateIs(h, Malloc, amount, block, ptr, segments, out);
      if out.Placed? {
        currentMallocOffset := ptr + block - mallocStart;
      }
    }

    /** Marks the node that the block takes. */
    method TreeAllocate(where: nat, amount: nat, kind: Kind) returns (out: Outcome)
      modifies this`segments
      ensures amount > size ==> out == OutOfMemory && segments == old(segments)
      ensures amount <= size ==>
        match Locate(where, amount, start, chunkSize, power)
        case None => out == NoRoom && segments == old(segments)
        case Some(node) => out == Placed(where) && segments == old(segments) + [Segment(node, amount, kind)]
    {
      if amount > size {
        return OutOfMemory;
      }
      var node := Locate(where, amount, start, chunkSize, power);
      if node.None? {
        return NoRoom;
      }
      segments := segments + [Segment(node.value, amount, kind)];
      out := Placed(where);
    }
  }

  lemma ChunkIsWord(h: Heap)
    requires Inv(h) && h.start + 3 * h.size < WORD
    ensures 0 < h.chunk < WORD
  {
    MulMonotone(1, Pow2(h.power), h.chunk);
    Commute(h.chunk, Pow2(h.power));
  }
}
