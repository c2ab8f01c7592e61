/** Loads from the tree that stores update: what the loading loop is answered, chunk by chunk,
  * and that what was stored is loaded. */
module StoredLoads {
  import opened Bits
  import C = ChunkLoads
  import opened SegmentTrees
  import opened SegmentBlocks

  // ---------- the chunks of a tree ----------

  /** What is in a byte that no store has reached. */
  type Junk = nat -> Byte

  function ByteIn(cell: Cell, junk: Byte): Byte {
    if cell.Known? then cell.b else junk
  }

  /** The answer for a chunk, if there is one to load from. */
  function ChunkOf(answer: Answer, junk: Junk): C.Chunk
    requires !answer.IllegalLoad?
  {
    match answer
    case Covered(state, fill) => if state.Memset? then C.Memset(fill) else C.Uninit
    case Data(cells) => C.Stored(seq(|cells|, i requires 0 <= i < |cells| => ByteIn(cells[i], junk(i))))
  }

  predicate Answers(t: Tree, chunk: nat, k: nat, i: nat)
    requires chunk > 0 && Sized(t, chunk)
  {
    i * chunk < Len(chunk, k) &&
    var a := Get(t, chunk, k, i * chunk);
    !a.IllegalLoad? && a != Data([])
  }

  /** The memory that the loading loop walks through. */
  function MemoryOf(t: Tree, chunk: nat, k: nat, junk: Junk): C.Memory
    requires chunk > 0 && Sized(t, chunk)
  {
    map i: nat | i < Len(chunk, k) && Answers(t, chunk, k, i) :: ChunkOf(Get(t, chunk, k, i * chunk), junk)
  }

  // ---------- one answer for a whole chunk ----------

  ghost predicate SameChunk(a: Answer, b: Answer, chunk: nat, i: nat) {
    match a
    case Data(cells) =>
      b.Data? && if cells == [] then b.cells == [] else |cells| == chunk && i < chunk && b.cells == cells[i..]
    case _ => a == b
  }

  lemma StartsInHalf(q: nat, p: nat, half: nat, chunk: nat)
    requires chunk > 0 && half % chunk == 0 && q % chunk == 0 && q <= p < q + chunk
    ensures q < half <==> p < half
    ensures q >= half ==> (q - half) % chunk == 0
  {
    assert q == (q / chunk) * chunk;
    DivUnique(p, chunk, q / chunk, p - q);
    QuotientBelow(q, half, chunk);
    QuotientBelow(p, half, chunk);
    if q >= half {
      ShiftByNodes(q - half, half, chunk);
    }
  }

  /** Within a chunk, the answer is that for its start. */
  lemma {:induction false} GetInChunk(t: Tree, chunk: nat, k: nat, q: nat, p: nat)
    requires chunk > 0 && Sized(t, chunk) && p < Len(chunk, k) && q % chunk == 0 && q <= p < q + chunk
    ensures SameChunk(Get(t, chunk, k, q), Get(t, chunk, k, p), chunk, p - q)
    decreases k
  {
    if k == 0 {
      SmallMod(q, chunk);
    } else if t.Node? && t.state.Unknown? {
      var half := Len(chunk, k - 1);
      LenMultiple(chunk, 0, k - 1);
      StartsInHalf(q, p, half, chunk);
      if p < half {
        GetInChunk(t.left, chunk, k - 1, q, p);
      } else {
        GetInChunk(t.right, chunk, k - 1, q - half, p - half);
      }
    }
  }

  lemma ChunkIsWhole(t: Tree, chunk: nat, k: nat, i: nat)
    requires chunk > 0 && Sized(t, chunk) && i * chunk < Len(chunk, k)
    ensures var a := Get(t, chunk, k, i * chunk); a.Data? && a.cells != [] ==> |a.cells| == chunk
  {
    DivUnique(i * chunk, chunk, i, 0);
    GetInChunk(t, chunk, k, i * chunk, i * chunk);
  }

  lemma MemoryIsValid(t: Tree, chunk: nat, k: nat, junk: Junk)
    requires 0 < chunk <= C.WORD / 2 && Sized(t, chunk)
    ensures C.Valid(MemoryOf(t, chunk, k, junk), chunk)
  {
    forall i | i in MemoryOf(t, chunk, k, junk) && MemoryOf(t, chunk, k, junk)[i].Stored?
      ensures |MemoryOf(t, chunk, k, junk)[i].data| == chunk
    {
      ChunkIsWhole(t, chunk, k, i);
    }
  }

  lemma KnownAnswer(a: Answer, b: Answer, chunk: nat, j: nat, byte: Byte, junk: Junk)
    requires SameChunk(a, b, chunk, j)
    requires match b
      case IllegalLoad => false
      case Covered(state, fill) => state.Memset? && fill == byte
      case Data(cells) => cells != [] && cells[0] == Known(byte)
    ensures !a.IllegalLoad? && a != Data([])
    ensures var c := ChunkOf(a, junk);
      !c.Uninit? && (c.Stored? ==> j < |c.data|) && C.ByteOf(c, j) == byte
  {
    match a
    case Data(cells) =>
      assert b.cells[0] == cells[j];
      assert ChunkOf(a, junk).data[j] == ByteIn(cells[j], junk(j));
    case Covered(_, _) =>
  }

  lemma MemoryAt(t: Tree, chunk: nat, k: nat, junk: Junk, i: nat)
    requires chunk > 0 && Sized(t, chunk) && i < Len(chunk, k) && Answers(t, chunk, k, i)
    ensures var mem := MemoryOf(t, chunk, k, junk); i in mem && mem[i] == ChunkOf(Get(t, chunk, k, i * chunk), junk)
  {
  }

  /** The memory has this byte at the place. */
  ghost predicate Holds(mem: C.Memory, chunk: nat, p: nat, byte: Byte)
    requires C.Valid(mem, chunk)
  {
    p / chunk in mem && !mem[p / chunk].Uninit? && C.ByteAt(mem, chunk, p) == byte
  }

  /** The memory has this byte at the i-th place of a chunk. */
  ghost predicate InChunk(mem: C.Memory, i: nat, j: nat, byte: Byte) {
    i in mem && !mem[i].Uninit? && (mem[i].Stored? ==> j < |mem[i].data|) && C.ByteOf(mem[i], j) == byte
  }

  lemma HoldsInChunk(mem: C.Memory, chunk: nat, p: nat, byte: Byte)
    requires C.Valid(mem, chunk) && InChunk(mem, p / chunk, p % chunk, byte)
    ensures Holds(mem, chunk, p, byte)
  {
  }

  /** A place whose byte is known is loaded as that byte. */
  lemma KnownIsLoaded(t: Tree, chunk: nat, k: nat, junk: Junk, p: nat)
    requires chunk > 0 && Sized(t, chunk) && p < Len(chunk, k) && CellAt(t, chunk, k, p).Known?
    ensures InChunk(MemoryOf(t, chunk, k, junk), p / chunk, p % chunk, CellAt(t, chunk, k, p).b)
  {
    var i, j := PlaceInChunk(p, chunk);
    ByteInChunk(t, chunk, k, junk, i, j, p);
  }

  lemma PlaceInChunk(p: nat, chunk: nat) returns (i: nat, j: nat)
    requires chunk > 0
    ensures i == p / chunk && j == p % chunk && p == i * chunk + j && j < chunk && i <= p
  {
    i, j := p / chunk, p % chunk;
    DivMod(p, chunk);
    C.QuotientIsLess(p, chunk);
  }

  lemma ByteInChunk(t: Tree, chunk: nat, k: nat, junk: Junk, i: nat, j: nat, p: nat)
    requires chunk > 0 && Sized(t, chunk) && p < Len(chunk, k) && CellAt(t, chunk, k, p).Known?
    requires p == i * chunk + j && j < chunk && i <= p
    ensures InChunk(MemoryOf(t, chunk, k, junk), i, j, CellAt(t, chunk, k, p).b)
  {
    DivUnique(i * chunk, chunk, i, 0);
    AnswerFrom(t, chunk, k, junk, i * chunk, j, p);
    MemoryAt(t, chunk, k, junk, i);
  }

  /** The answer at the start of a chunk has the byte at its place. */
  lemma AnswerFrom(t: Tree, chunk: nat, k: nat, junk: Junk, q: nat, j: nat, p: nat)
    requires chunk > 0 && Sized(t, chunk) && p < Len(chunk, k) && CellAt(t, chunk, k, p).Known?
    requires q % chunk == 0 && p == q + j && j < chunk
    ensures !Get(t, chunk, k, q).IllegalLoad? && Get(t, chunk, k, q) != Data([])
    ensures var c := ChunkOf(Get(t, chunk, k, q), junk);
      && !c.Uninit? && (c.Stored? ==> j < |c.data|) && C.ByteOf(c, j) == CellAt(t, chunk, k, p).b
  {
    GetMeans(t, chunk, k, p);
    GetInChunk(t, chunk, k, q, p);
    KnownAnswer(Get(t, chunk, k, q), Get(t, chunk, k, p), chunk, j, CellAt(t, chunk, k, p).b, junk);
  }

  // ---------- main result ----------

  /** After a store, flat memory holds its data; and the load of the same range, which walks
    * from chunk to chunk, returns them exactly if it starts on a chunk boundary or spans at
    * least a chunk. */
  lemma StoreThenLoad(tree: Tree, chunk: nat, k: nat, where: nat, data: seq<Byte>, junk: Junk)
    requires Valid(tree, chunk) && data != [] && where + |data| <= Len(chunk, k)
    requires AllWritable(tree, chunk, k, where, |data|)
    requires chunk <= C.WORD / 2 && where + |data| < C.WORD
    ensures var r := Store(tree, chunk, k, where, data, false);
      && r.Done? && Sized(r.tree, chunk)
      && var mem := MemoryOf(r.tree, chunk, k, junk);
         && C.Valid(mem, chunk) && C.Flat(mem, chunk, where, |data|) == C.Concrete(data)
         && (C.Walk(mem, chunk, |data|, where) == C.Concrete(data) <==> where % chunk == 0 || |data| >= chunk)
  {
    StoreMeans(tree, chunk, k, where, data, where);
    var r := Store(tree, chunk, k, where, data, false).tree;
    var mem := MemoryOf(r, chunk, k, junk);
    MemoryIsValid(r, chunk, k, junk);
    forall i | 0 <= i < |data| ensures Holds(mem, chunk, where + i, data[i]) {
      StoreMeans(tree, chunk, k, where, data, where + i);
      KnownIsLoaded(r, chunk, k, junk, where + i);
      HoldsInChunk(mem, chunk, where + i, data[i]);
    }
    LoadOfHeld(mem, chunk, where, data);
  }

  lemma LoadOfHeld(mem: C.Memory, chunk: nat, where: nat, data: seq<Byte>)
    requires C.Valid(mem, chunk) && data != [] && where + |data| < C.WORD
    requires forall i | 0 <= i < |data| :: Holds(mem, chunk, where + i, data[i])
    ensures C.Flat(mem, chunk, where, |data|) == C.Concrete(data)
    ensures C.Walk(mem, chunk, |data|, where) == C.Concrete(data) <==> where % chunk == 0 || |data| >= chunk
  {
    var n := |data|;
    forall q | where <= q < where + n ensures q / chunk in mem && !mem[q / chunk].Uninit? {
      assert Holds(mem, chunk, where + (q - where), data[q - where]);
    }
    C.FlatIsConcreteIff(mem, chunk, where, n);
    var bytes := C.Flat(mem, chunk, where, n).bytes;
    assert bytes == data by {
      forall i | 0 <= i < n ensures bytes[i] == data[i] {
        assert Holds(mem, chunk, where + i, data[i]);
      }
    }
    if where % chunk == 0 || n >= chunk {
      C.WalkIsFlat(mem, chunk, n, where);
    } else {
      C.ShortLoadFails(mem, chunk, n, where);
    }
  }
}
