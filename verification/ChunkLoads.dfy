/** Loading bytes from chunked memory: the walk from chunk to chunk, in 64-bit unsigned
  * arithmetic, against the flat contents of memory. */
module ChunkLoads {
  import opened Bits

  const WORD: nat := 0x1_0000_0000_0000_0000

  type Byte = bv8

  /** What the tree answers for a chunk. */
  datatype Chunk = Uninit | Memset(fill: Byte) | Stored(data: seq<Byte>)

  type Memory = map<nat, Chunk>

  /** A load is illegal where nothing is allocated and unknown where nothing was written.
    * It may take a slice that is not in the buffer, and a step of no bytes repeats for ever. */
  datatype Load = Concrete(bytes: seq<Byte>) | Unknown | Illegal | OutOfBuffer | Endless

  ghost predicate Valid(mem: Memory, chunk: nat) {
    0 < chunk <= WORD / 2 && forall i | i in mem && mem[i].Stored? :: |mem[i].data| == chunk
  }

  function Wrap(n: int): (w: nat)
    ensures w < WORD
    ensures 0 <= n < WORD ==> w == n
    ensures 0 <= n + WORD < WORD ==> w == n + WORD
  {
    n % WORD
  }

  // ---------- flat memory ----------

  function ByteOf(c: Chunk, i: nat): Byte
    requires !c.Uninit? && (c.Stored? ==> i < |c.data|)
  {
    if c.Memset? then c.fill else c.data[i]
  }

  /** The n bytes from p on, one at a time. */
  ghost function Flat(mem: Memory, chunk: nat, p: nat, n: nat): Load
    requires Valid(mem, chunk)
    decreases n
  {
    if n == 0 then Concrete([])
    else if p / chunk !in mem then Illegal
    else if mem[p / chunk].Uninit? then Unknown
    else Prepend([ByteOf(mem[p / chunk], p % chunk)], Flat(mem, chunk, p + 1, n - 1))
  }

  function Prepend(bytes: seq<Byte>, l: Load): Load {
    if l.Concrete? then Concrete(bytes + l.bytes) else l
  }

  /** The bytes of a chunk from i on. */
  function Slice(c: Chunk, i: nat, n: nat): (r: seq<Byte>)
    requires !c.Uninit? && (c.Stored? ==> i + n <= |c.data|)
    ensures |r| == n && forall k | 0 <= k < n :: r[k] == ByteOf(c, i + k)
  {
    if c.Memset? then seq<Byte>(n, _ => c.fill) else c.data[i..i + n]
  }

  /** Within one chunk, flat memory is a slice of it. */
  lemma {:induction false} FlatInChunk(mem: Memory, chunk: nat, p: nat, c: Chunk, i: nat, m: nat, n: nat)
    requires Valid(mem, chunk) && p / chunk in mem && mem[p / chunk] == c && !c.Uninit?
    requires p % chunk == i && i + m <= chunk
    ensures Flat(mem, chunk, p, m + n) == Prepend(Slice(c, i, m), Flat(mem, chunk, p + m, n))
    decreases m
  {
    if m > 0 {
      SliceSplits(c, i, m);
      PrependTwice([ByteOf(c, i)], Slice(c, i + 1, m - 1), Flat(mem, chunk, p + m, n));
      if m > 1 {
        NextInChunk(p, chunk);
        FlatInChunk(mem, chunk, p + 1, c, i + 1, m - 1, n);
      }
    }
  }

  lemma SliceSplits(c: Chunk, i: nat, n: nat)
    requires !c.Uninit? && n > 0 && (c.Stored? ==> i + n <= |c.data|)
    ensures Slice(c, i, n) == [ByteOf(c, i)] + Slice(c, i + 1, n - 1)
  {
  }

  lemma NextInChunk(p: nat, chunk: nat)
    requires chunk > 0 && p % chunk + 1 < chunk
    ensures (p + 1) / chunk == p / chunk && (p + 1) % chunk == p % chunk + 1
  {
    DivUnique(p + 1, chunk, p / chunk, p % chunk + 1);
  }

  // ---------- the walk ----------

  /** The number of bytes taken from the current chunk, as computed from the number left to
    * load and the offset in the chunk. */
  function CurrentSize(chunk: nat, left: nat, inChunk: nat): (current: nat)
    requires inChunk < chunk <= WORD / 2 && left < WORD
    ensures current <= left ==> inChunk + current <= chunk
  {
    var fromHere := Wrap(chunk - inChunk);
    if left < chunk then
      var leftover := Wrap(left - inChunk);
      Wrap(fromHere - Wrap(chunk - leftover))
    else fromHere
  }

  /** The rest of the walk.  The pointer is always the start of the tree plus the offset. */
  ghost function Walk(mem: Memory, chunk: nat, left: nat, offset: nat): Load
    requires Valid(mem, chunk) && offset + left < WORD
    decreases left, 1
  {
    if left == 0 then Concrete([])
    else if offset / chunk !in mem then Illegal
    else Step(mem, chunk, left, offset, mem[offset / chunk], CurrentSize(chunk, left, offset % chunk))
  }

  ghost function Step(mem: Memory, chunk: nat, left: nat, offset: nat, c: Chunk, current: nat): Load
    requires Valid(mem, chunk) && offset + left < WORD
    requires current <= left ==> offset % chunk + current <= chunk
    requires c.Stored? ==> |c.data| == chunk
    decreases left, 0
  {
    if current > left then OutOfBuffer
    else if c.Uninit? then Unknown
    else if current == 0 then Endless
    else Prepend(Slice(c, offset % chunk, current), Walk(mem, chunk, left - current, offset + current))
  }

  /** The loop.  A step of no bytes changes nothing, so it repeats for ever. */
  method LoadBytesFromMemory(mem: Memory, chunkSize: nat, start: nat, size: nat) returns (r: Load)
    requires Valid(mem, chunkSize) && start + size < WORD
    ensures r == Walk(mem, chunkSize, size, start)
  {
    var offset: nat, loaded: nat := start, 0;
    var buffer: seq<Byte> := [];
    ghost var walk := Walk(mem, chunkSize, size, start);
    RemainsAtStart(mem, chunkSize, size, start);
    while loaded < size
      invariant loaded <= size && offset == start + loaded
      invariant Remains(mem, chunkSize, buffer, size - loaded, offset, walk)
      decreases size - loaded
    {
      var slice := LoadSlice(mem, chunkSize, buffer, size - loaded, offset, walk);
      if !slice.Concrete? {
        return slice;
      }
      buffer := buffer + slice.bytes;
      loaded := loaded + |slice.bytes|;
      offset := offset + |slice.bytes|;
    }
    RemainsAtEnd(mem, chunkSize, buffer, offset, walk);
    r := Concrete(buffer);
  }

  /** One turn of the loop: what ends it is the walk's result, and otherwise what remains is
    * the rest of the walk. */
  method LoadSlice(mem: Memory, chunkSize: nat, ghost buffer: seq<Byte>, left: nat, offset: nat, ghost walk: Load)
    returns (slice: Load)
    requires Valid(mem, chunkSize) && offset + left < WORD && left > 0
    requires Remains(mem, chunkSize, buffer, left, offset, walk)
    ensures !slice.Concrete? ==> slice == walk
    ensures slice.Concrete? ==> var n := |slice.bytes|;
      0 < n <= left && Remains(mem, chunkSize, buffer + slice.bytes, left - n, offset + n, walk)
  {
    slice := LoadFromChunk(mem, chunkSize, left, offset);
    if slice.Concrete? {
      RemainsAfter(mem, chunkSize, buffer, left, offset, walk, slice.bytes);
    }
  }

  /** What has been loaded and the rest of the walk make up the walk. */
  ghost predicate Remains(mem: Memory, chunk: nat, buffer: seq<Byte>, left: nat, offset: nat, walk: Load)
    requires Valid(mem, chunk) && offset + left < WORD
  {
    walk == Prepend(buffer, Walk(mem, chunk, left, offset))
  }

  lemma RemainsAtStart(mem: Memory, chunk: nat, size: nat, start: nat)
    requires Valid(mem, chunk) && start + size < WORD
    ensures Remains(mem, chunk, [], size, start, Walk(mem, chunk, size, start))
  {
  }

  lemma RemainsAtEnd(mem: Memory, chunk: nat, buffer: seq<Byte>, offset: nat, walk: Load)
    requires Valid(mem, chunk) && offset < WORD
    ensures Remains(mem, chunk, buffer, 0, offset, walk) ==> walk == Concrete(buffer)
  {
  }

  lemma RemainsAfter(mem: Memory, chunk: nat, buffer: seq<Byte>, left: nat, offset: nat, walk: Load,
                     bytes: seq<Byte>)
    requires Valid(mem, chunk) && offset + left < WORD && |bytes| <= left
    requires Remains(mem, chunk, buffer, left, offset, walk)
    requires Walk(mem, chunk, left, offset) == Prepend(bytes, Walk(mem, chunk, left - |bytes|, offset + |bytes|))
    ensures Remains(mem, chunk, buffer + bytes, left - |bytes|, offset + |bytes|, walk)
  {
    PrependTwice(buffer, bytes, Walk(mem, chunk, left - |bytes|, offset + |bytes|));
  }

  /** One turn of the loop: the bytes it adds, or why it stops. */
  method LoadFromChunk(mem: Memory, chunkSize: nat, left: nat, offset: nat) returns (r: Load)
    requires Valid(mem, chunkSize) && offset + left < WORD && left > 0
    ensures !r.Concrete? ==> r == Walk(mem, chunkSize, left, offset)
    ensures r.Concrete? ==> var n := |r.bytes|;
      && 0 < n <= left
      && Walk(mem, chunkSize, left, offset) == Prepend(r.bytes, Walk(mem, chunkSize, left - n, offset + n))
  {
    if offset / chunkSize !in mem {
      return Illegal;
    }
    var current := mem[offset / chunkSize];
    var currentSize := CurrentSize(chunkSize, left, offset % chunkSize);
    if currentSize > left {
      return OutOfBuffer;
    }
    if current.Uninit? {
      return Unknown;
    }
    if currentSize == 0 {
      return Endless;
    }
    r := Concrete(Slice(current, offset % chunkSize, currentSize));
  }

  lemma PrependTwice(a: seq<Byte>, b: seq<Byte>, l: Load)
    ensures Prepend(a, Prepend(b, l)) == Prepend(a + b, l)
  {
    if l.Concrete? {
      assert a + (b + l.bytes) == (a + b) + l.bytes;
    }
  }

  // ---------- when the walk is right ----------

  /** From a chunk boundary, or with a whole chunk still to go, a step takes what is left of
    * the chunk or of the load. */
  lemma StepTakesRest(chunk: nat, left: nat, inChunk: nat)
    requires inChunk < chunk <= WORD / 2 && left < WORD
    requires inChunk == 0 || left >= chunk
    ensures var rest := chunk - inChunk;
      CurrentSize(chunk, left, inChunk) == if rest < left then rest else left
  {
  }

  lemma {:induction false} WalkIsFlat(mem: Memory, chunk: nat, left: nat, offset: nat)
    requires Valid(mem, chunk) && offset + left < WORD
    requires left == 0 || offset % chunk == 0 || left >= chunk
    ensures Walk(mem, chunk, left, offset) == Flat(mem, chunk, offset, left)
    decreases left
  {
    if left > 0 && offset / chunk in mem && !mem[offset / chunk].Uninit? {
      var current := CurrentSize(chunk, left, offset % chunk);
      StepTakesRest(chunk, left, offset % chunk);
      NextChunk(offset, chunk);
      WalkIsFlat(mem, chunk, left - current, offset + current);
      FlatInChunk(mem, chunk, offset, mem[offset / chunk], offset % chunk, current, left - current);
    }
  }

  lemma NextChunk(p: nat, chunk: nat)
    requires chunk > 0
    ensures (p + (chunk - p % chunk)) % chunk == 0
  {
    var q := p / chunk;
    assert p == q * chunk + p % chunk;
    assert (q + 1) * chunk == q * chunk + chunk;
    DivUnique(p + (chunk - p % chunk), chunk, q + 1, 0);
  }

  /** A shorter load from within a chunk takes the offset in the chunk off twice. */
  lemma ShortSteps(chunk: nat, left: nat, inChunk: nat)
    requires 0 < inChunk < chunk <= WORD / 2 && left < chunk
    ensures left < 2 * inChunk ==> CurrentSize(chunk, left, inChunk) > left
    ensures left >= 2 * inChunk ==> CurrentSize(chunk, left, inChunk) == left - 2 * inChunk
  {
  }

  lemma ShortLoadFails(mem: Memory, chunk: nat, size: nat, start: nat)
    requires Valid(mem, chunk) && start + size < WORD
    requires 0 < size < chunk && start % chunk > 0
    ensures var d, c := start % chunk, start / chunk;
      Walk(mem, chunk, size, start) ==
        if c !in mem then Illegal
        else if size < 2 * d then OutOfBuffer
        else if mem[c].Uninit? then Unknown
        else if size == 2 * d then Endless
        else OutOfBuffer
  {
    var d, c := start % chunk, start / chunk;
    ShortSteps(chunk, size, d);
    if c in mem && size > 2 * d && !mem[c].Uninit? {
      SecondStepFails(mem, chunk, size, start);
    }
  }

  lemma SecondStepFails(mem: Memory, chunk: nat, size: nat, start: nat)
    requires Valid(mem, chunk) && start + size < WORD
    requires start % chunk > 0 && 2 * (start % chunk) < size < chunk && start / chunk in mem
    ensures Walk(mem, chunk, 2 * (start % chunk), start + (size - 2 * (start % chunk))) == OutOfBuffer
  {
    var d := start % chunk;
    DivUnique(start + (size - 2 * d), chunk, start / chunk, size - d);
    ShortSteps(chunk, 2 * d, size - d);
  }

  /** Memory that was set to zero throughout. */
  function Zeroed(chunks: nat): Memory {
    map i | 0 <= i < chunks :: Fill(i)
  }

  function Fill(chunk: nat): Chunk {
    Memset(0)
  }

  ghost predicate AllMemset(mem: Memory, n: nat) {
    forall i | 0 <= i < n :: i in mem && mem[i].Memset?
  }

  lemma ZeroedIsConcrete(mem: Memory, chunk: nat, p: nat, n: nat)
    requires Valid(mem, chunk) && AllMemset(mem, p + n)
    ensures Flat(mem, chunk, p, n).Concrete?
  {
    forall q | p <= q < p + n ensures q / chunk in mem && !mem[q / chunk].Uninit? {
      MemsetAt(mem, chunk, p + n, q);
    }
    FlatIsConcreteIff(mem, chunk, p, n);
  }

  lemma MemsetAt(mem: Memory, chunk: nat, n: nat, p: nat)
    requires chunk > 0 && AllMemset(mem, n) && p < n
    ensures p / chunk in mem && !mem[p / chunk].Uninit?
  {
    QuotientIsLess(p, chunk);
  }

  lemma QuotientIsLess(p: nat, chunk: nat)
    requires chunk > 0
    ensures p / chunk <= p
  {
    MulMonotone(1, chunk, p / chunk);
    Commute(chunk, p / chunk);
  }

  /** The load is right for all memories exactly if it starts on a chunk boundary, spans at
    * least a chunk, or loads nothing. */
  lemma LoadIsRightIff(chunk: nat, start: nat, size: nat)
    requires 0 < chunk <= WORD / 2 && start + size < WORD
    ensures (forall mem: Memory | Valid(mem, chunk) :: Walk(mem, chunk, size, start) == Flat(mem, chunk, start, size))
      <==> (size == 0 || start % chunk == 0 || size >= chunk)
  {
    if size == 0 || start % chunk == 0 || size >= chunk {
      forall mem: Memory | Valid(mem, chunk)
        ensures Walk(mem, chunk, size, start) == Flat(mem, chunk, start, size)
      {
        WalkIsFlat(mem, chunk, size, start);
      }
    } else {
      ShortLoadOfZeros(chunk, start, size);
    }
  }

  lemma ShortLoadOfZeros(chunk: nat, start: nat, size: nat)
    requires 0 < chunk <= WORD / 2 && start + size < WORD
    requires 0 < size < chunk && start % chunk > 0
    ensures var mem := Zeroed(start + size);
      Valid(mem, chunk) && Walk(mem, chunk, size, start) != Flat(mem, chunk, start, size)
  {
    var mem := Zeroed(start + size);
    ZeroedIsConcrete(mem, chunk, start, size);
    ShortLoadFails(mem, chunk, size, start);
    QuotientIsLess(start, chunk);
  }

  /** Flat memory is concrete exactly if every byte lies in a chunk that was written. */
  lemma {:induction false} FlatIsConcreteIff(mem: Memory, chunk: nat, p: nat, n: nat)
    requires Valid(mem, chunk)
    ensures Flat(mem, chunk, p, n).Concrete? <==>
      forall q | p <= q < p + n :: q / chunk in mem && !mem[q / chunk].Uninit?
    ensures Flat(mem, chunk, p, n).Concrete? ==>
      var bytes := Flat(mem, chunk, p, n).bytes;
      |bytes| == n && forall k | 0 <= k < n :: bytes[k] == ByteAt(mem, chunk, p + k)
    decreases n
  {
    if n > 0 {
      FlatIsConcreteIff(mem, chunk, p + 1, n - 1);
      var l := Flat(mem, chunk, p, n);
      if l.Concrete? {
        var rest := Flat(mem, chunk, p + 1, n - 1).bytes;
        assert l.bytes == [ByteAt(mem, chunk, p)] + rest;
        forall k | 0 <= k < n ensures l.bytes[k] == ByteAt(mem, chunk, p + k) {
          assert k > 0 ==> rest[k - 1] == ByteAt(mem, chunk, p + 1 + (k - 1));
        }
      }
    }
  }

  ghost function ByteAt(mem: Memory, chunk: nat, p: nat): Byte
    requires Valid(mem, chunk)
  {
    if p / chunk in mem && !mem[p / chunk].Uninit? then ByteOf(mem[p / chunk], p % chunk) else 0
  }
}
