/** Bit vectors of any width scattered over an array of fixed-size cells. */
module ByteScatter {
  import opened Bits
  import opened SmtLogic
  import opened MemArrays

  /** The number of cells that a value of this width takes. */
  function Cells(width: nat, size: nat): (n: nat)
    requires width > 0 && size > 0
    ensures n > 0
  {
    (width - 1) / size + 1
  }

  lemma CellsCover(width: nat, size: nat, k: nat)
    requires width > 0 && size > 0
    ensures k < Cells(width, size) <==> k * size < width
  {
    var q := (width - 1) / size;
    assert width - 1 == q * size + (width - 1) % size;
    MulMonotone(k, q, size);
    MulMonotone(q + 1, k, size);
    assert (q + 1) * size == q * size + size;
  }

  function Min(a: nat, b: nat): nat {
    if a < b then a else b
  }

  /** Cell k of a value: its bits from k * size on, the last cell sign-extended. */
  function Piece(b: Bits, size: nat, k: nat): Bits
    requires Fits(b) && size > 0 && k * size < b.width
  {
    Sext(Extract(b, Min(k * size + size - 1, b.width - 1), k * size), size)
  }

  function PieceAt(b: Bits, size: nat, k: nat): Bits
    requires Fits(b) && size > 0 && k < Cells(b.width, size)
  {
    CellsCover(b.width, size, k);
    Piece(b, size, k)
  }

  function Pieces(b: Bits, size: nat): (r: seq<Bits>)
    requires Fits(b) && size > 0
    ensures |r| == Cells(b.width, size)
  {
    seq(Cells(b.width, size), k requires 0 <= k < Cells(b.width, size) => PieceAt(b, size, k))
  }

  /** The first byte is the lowest. */
  function ConcatAll(bytes: seq<Bits>): Bits
    decreases |bytes|
  {
    if bytes == [] then Bits(0, 0)
    else
      var n := |bytes| - 1;
      Concat(bytes[n], ConcatAll(bytes[..n]))
  }

  // ---------- the loops of the program ----------

  method SplitBytes(b: Bits, size: nat) returns (ret: seq<Bits>)
    requires Fits(b) && size > 0
    ensures ret == Pieces(b, size)
  {
    if b.width <= size {
      NarrowPiece(b, size);
      return [Sext(b, size)];
    }
    ret := [];
    var ix := 0;
    while ix < b.width
      invariant ix == |ret| * size
      invariant ret <= Pieces(b, size)
    {
      NextPiece(b, size, |ret|, ix);
      var hi := Min(ix + size - 1, b.width - 1);
      ret := ret + [Sext(Extract(b, hi, ix), size)];
      ix := ix + size;
    }
    CellsCover(b.width, size, |ret|);
  }

  lemma NextPiece(b: Bits, size: nat, k: nat, ix: nat)
    requires Fits(b) && size > 0 && ix == k * size < b.width
    ensures k < Cells(b.width, size) && (k + 1) * size == ix + size
    ensures Pieces(b, size)[k] == Sext(Extract(b, Min(ix + size - 1, b.width - 1), ix), size)
  {
    CellsCover(b.width, size, k);
  }

  method ConcatBytesDynamic(bytes: seq<Bits>, bitSize: nat) returns (r: Bits)
    requires bytes != [] && bitSize > 0 && forall b | b in bytes :: Fits(b)
    ensures Fits(ConcatAll(bytes)) && r == AdaptTo(ConcatAll(bytes), bitSize, false)
  {
    var head := bytes[0];
    assert bytes[..1] == [head] && Pow2(0) == 1;
    for i := 1 to |bytes|
      invariant head == ConcatAll(bytes[..i]) && Fits(head)
    {
      assert bytes[..i + 1][..i] == bytes[..i];
      ConcatFits(bytes[i], head);
      head := Concat(bytes[i], head);
    }
    assert bytes[..|bytes|] == bytes;
    r := AdaptTo(head, bitSize, false);
  }

  /** The cell at a pointer. */
  function Cell(a: ArrVal, i: int, size: nat): (r: Bits)
    requires size > 0
    ensures Fits(r)
  {
    Bits(size, a[Wrap(i)] % Pow2(size))
  }

  function CellsFrom(a: ArrVal, i: int, n: nat, size: nat): (r: seq<Bits>)
    requires size > 0
    ensures |r| == n && forall k | 0 <= k < n :: r[k] == Cell(a, i + k, size)
  {
    seq(n, k requires 0 <= k < n => Cell(a, i + k, size))
  }

  /** The pointer k cells on: pointers are words. */
  function At(i: int, k: nat): int {
    Wrap(i + k)
  }

  function Entries(i: int, b: Bits, size: nat): (r: seq<(int, int)>)
    requires Fits(b) && size > 0
    ensures |r| == Cells(b.width, size)
  {
    seq(Cells(b.width, size), k requires 0 <= k < Cells(b.width, size) => (At(i, k), PieceAt(b, size, k).val))
  }

  method Select(a: ArrVal, i: int, bits: nat, size: nat) returns (r: Bits)
    requires bits > 0 && size > 0
    ensures r == Selected(a, i, bits, size)
  {
    var bytes: seq<Bits> := [];
    for j := 0 to Cells(bits, size)
      invariant bytes == CellsFrom(a, i, j, size)
    {
      bytes := bytes + [Cell(a, i + j, size)];
    }
    r := ConcatBytesDynamic(bytes, bits);
  }

  method Store(a: ArrVal, i: int, b: Bits, size: nat) returns (r: ArrVal)
    requires Fits(b) && size > 0
    ensures r == Stored(a, i, b, size)
  {
    var bytes := SplitBytes(b, size);
    var cases: seq<(int, int)> := [];
    for j := 0 to |bytes|
      invariant cases <= Entries(i, b, size) && |cases| == j
    {
      EntryAt(i, b, size, j);
      cases := cases + [(At(i, j), bytes[j].val)];
    }
    assert cases == Entries(i, b, size);
    r := StoreEntries(a, cases);
  }

  lemma EntryAt(i: int, b: Bits, size: nat, k: nat)
    requires Fits(b) && size > 0 && k < Cells(b.width, size)
    ensures Entries(i, b, size)[k] == (At(i, k), Pieces(b, size)[k].val)
  {
  }

  lemma {:induction false} JoinFits(bytes: seq<Bits>)
    requires bytes != [] && forall b | b in bytes :: Fits(b)
    ensures Fits(ConcatAll(bytes))
    decreases |bytes|
  {
    var n := |bytes| - 1;
    if n == 0 {
      assert Pow2(0) == 1;
    } else {
      JoinFits(bytes[..n]);
      ConcatFits(bytes[n], ConcatAll(bytes[..n]));
    }
  }

  function Selected(a: ArrVal, i: int, bits: nat, size: nat): Bits
    requires bits > 0 && size > 0
  {
    var bytes := CellsFrom(a, i, Cells(bits, size), size);
    JoinFits(bytes);
    AdaptTo(ConcatAll(bytes), bits, false)
  }

  ghost function Stored(a: ArrVal, i: int, b: Bits, size: nat): ArrVal
    requires Fits(b) && size > 0
  {
    StoreAll(a, Entries(i, b, size))
  }

  // ---------- splitting and joining ----------

  lemma NarrowPiece(b: Bits, size: nat)
    requires Fits(b) && b.width <= size
    ensures Pieces(b, size) == [Sext(b, size)]
  {
    CellsCover(b.width, size, 1);
    FirstPiece(b, size);
    assert Pieces(b, size)[0] == Sext(b, size);
  }

  lemma FirstPiece(b: Bits, size: nat)
    requires Fits(b) && b.width <= size && 0 < Cells(b.width, size)
    ensures PieceAt(b, size, 0) == Sext(b, size)
  {
    assert 0 * size == 0;
    ExtractAll(b);
  }

  /** While all cells are full, what has been joined is the low bits of the value. */
  lemma {:induction false} FullPiecesJoin(b: Bits, size: nat, m: nat, low: nat)
    requires Fits(b) && size > 0 && low == m * size <= b.width && m <= Cells(b.width, size)
    ensures ConcatAll(Pieces(b, size)[..m]) == Bits(low, b.val % Pow2(low))
    decreases m
  {
    if m == 0 {
      assert Pow2(0) == 1;
    } else {
      var k := m - 1;
      assert low == k * size + size;
      var ps := Pieces(b, size);
      assert ps[..m][..k] == ps[..k];
      FullPiecesJoin(b, size, k, low - size);
      FullPiece(b, size, k, low - size);
      LowBitsSplit(b.val, low - size, size);
    }
  }

  lemma FullPiece(b: Bits, size: nat, k: nat, low: nat)
    requires Fits(b) && size > 0 && k < Cells(b.width, size) && low == k * size && low + size <= b.width
    ensures Pieces(b, size)[k] == Bits(size, b.val / Pow2(low) % Pow2(size))
  {
  }

  /** Joining the cells of a value gives the value, sign-extended to whole cells. */
  lemma PiecesJoin(b: Bits, size: nat)
    requires Fits(b) && size > 0
    ensures b.width <= Cells(b.width, size) * size
    ensures ConcatAll(Pieces(b, size)) == Sext(b, Cells(b.width, size) * size)
  {
    var n := Cells(b.width, size);
    var k := n - 1;
    var low := k * size;
    CellsCover(b.width, size, n);
    CellsCover(b.width, size, k);
    assert n * size == low + size;
    FullPiecesJoin(b, size, k, low);
    var ps := Pieces(b, size);
    assert ConcatAll(ps) == Concat(Piece(b, size, k), ConcatAll(ps[..k]));
    LastPiece(b, size, low);
  }

  /** The last piece, above the low bits, is the value sign-extended. */
  lemma LastPiece(b: Bits, size: nat, low: nat)
    requires Fits(b) && size > 0 && low < b.width <= low + size
    ensures Concat(Sext(Extract(b, b.width - 1, low), size), Bits(low, b.val % Pow2(low)))
      == Sext(b, low + size)
  {
    var q, r := b.val / Pow2(low), b.val % Pow2(low);
    LastExtract(b, low, q);
    LastSign(b, low);
    DivMod(b.val, Pow2(low));
    JoinExtended(b.width - low, q, low, r, size, b);
  }

  /** Extending the high part extends the whole. */
  lemma JoinExtended(w: nat, q: nat, low: nat, r: nat, size: nat, b: Bits)
    requires 0 < w <= size && b.width == low + w && b.val == q * Pow2(low) + r
    requires q < Pow2(w - 1) <==> b.val < Pow2(b.width - 1)
    ensures Concat(Sext(Bits(w, q), size), Bits(low, r)) == Sext(b, low + size)
  {
    if q >= Pow2(w - 1) {
      ScaledPowDiff(size, w, low, q);
    }
  }

  lemma ScaledPowDiff(size: nat, w: nat, low: nat, q: nat)
    requires w <= size
    ensures (q + PowDiff(size, w)) * Pow2(low) == q * Pow2(low) + PowDiff(low + size, low + w)
  {
    PowAdds(low, w);
    PowAdds(low, size);
    PowMonotone(w, size);
    ScaleDiff(Pow2(size), Pow2(w), Pow2(low), q);
  }

  /** The bits from `low` on. */
  lemma LastExtract(b: Bits, low: nat, q: nat)
    requires Fits(b) && low < b.width && q == b.val / Pow2(low)
    ensures Extract(b, b.width - 1, low) == Bits(b.width - low, q)
  {
    PowAdds(low, b.width - low);
    DivBelowIff(b.val, Pow2(low), Pow2(b.width - low));
    SmallMod(q, Pow2(b.width - low));
  }

  lemma LastSign(b: Bits, low: nat)
    requires Fits(b) && low < b.width
    ensures b.val / Pow2(low) < Pow2(b.width - low - 1) <==> b.val < Pow2(b.width - 1)
  {
    PowAdds(low, b.width - low - 1);
    DivBelowIff(b.val, Pow2(low), Pow2(b.width - low - 1));
  }

  lemma DivBelowIff(v: nat, d: nat, e: nat)
    requires d > 0
    ensures v / d < e <==> v < d * e
  {
    var q := v / d;
    assert v == q * d + v % d;
    MulMonotone(q + 1, e, d);
    MulMonotone(e, q, d);
    assert (q + 1) * d == q * d + d;
    Commute(d, e);
  }

  lemma ScaleDiff(x: int, y: int, d: int, q: int)
    ensures (q + (x - y)) * d == q * d + (d * x - d * y)
  {
  }

  // ---------- the array ----------

  lemma WrapDistinct(i: int, k: nat, l: nat)
    requires k < WORD && l < WORD && Wrap(i + k) == Wrap(i + l)
    ensures k == l
  {
    assert (i + k) % WORD == (i + l) % WORD;
    var q := (i + k) / WORD - (i + l) / WORD;
    assert k - l == q * WORD;
  }

  /** The pointers that a value of n cells at i occupies. */
  ghost predicate InFootprint(p: int, i: int, n: nat) {
    exists k: nat :: k < n && At(i, k) == p
  }

  lemma StoredCell(a: ArrVal, i: int, b: Bits, size: nat, k: nat)
    requires Fits(b) && size > 0 && k < Cells(b.width, size) <= WORD
    ensures Cell(Stored(a, i, b, size), i + k, size) == Pieces(b, size)[k]
  {
    var es := Entries(i, b, size);
    var p := At(i, k);
    LastEntryAt(i, b, size, k);
    StoreAllAt(a, es, p);
    LastEntryWins(p, es, a[p]);
    PieceFits(b, size, k);
  }

  lemma LastEntryAt(i: int, b: Bits, size: nat, k: nat)
    requires Fits(b) && size > 0 && k < Cells(b.width, size) <= WORD
    ensures LastAt(At(i, k), Entries(i, b, size), k)
  {
    forall l | k < l < Cells(b.width, size) ensures At(i, l) != At(i, k) {
      if At(i, l) == At(i, k) {
        WrapDistinct(i, k, l);
      }
    }
  }

  lemma PieceFits(b: Bits, size: nat, k: nat)
    requires Fits(b) && size > 0 && k < Cells(b.width, size)
    ensures Fits(PieceAt(b, size, k)) && PieceAt(b, size, k).width == size
    ensures PieceAt(b, size, k).val % Pow2(size) == PieceAt(b, size, k).val
  {
    CellsCover(b.width, size, k);
    ExtendedFits(b, Min(k * size + size - 1, b.width - 1), k * size, size);
  }

  lemma ExtendedFits(b: Bits, high: nat, low: nat, size: nat)
    requires Fits(b) && low <= high < b.width && high - low < size
    ensures var p := Sext(Extract(b, high, low), size); Fits(p) && p.width == size && p.val % Pow2(size) == p.val
  {
    ExtractFits(b, high, low);
    SextFits(Extract(b, high, low), size);
    SmallMod(Sext(Extract(b, high, low), size).val, Pow2(size));
  }

  lemma StoredElsewhere(a: ArrVal, i: int, b: Bits, size: nat, p: int)
    requires Fits(b) && size > 0 && !InFootprint(p, i, Cells(b.width, size))
    ensures Stored(a, i, b, size)[p] == a[p]
  {
    var es := Entries(i, b, size);
    forall l: nat | l < |es| ensures es[l].0 != p {
    }
    StoreAllAt(a, es, p);
    LastEntryWins(p, es, a[p]);
  }

  // ---------- main results ----------

  /** Reading where a value was stored: any width within its cells gives the value cut or
    * sign-extended to that width. */
  lemma ReadOverWrite(a: ArrVal, i: int, b: Bits, bits: nat, size: nat)
    requires Fits(b) && size > 0 && Cells(b.width, size) <= WORD
    requires 0 < bits <= Cells(b.width, size) * size
    ensures Selected(Stored(a, i, b, size), i, bits, size) == AdaptTo(b, bits, true)
  {
    var n, m := Cells(b.width, size), Cells(bits, size);
    var after := Stored(a, i, b, size);
    var bytes := CellsFrom(after, i, m, size);
    CellsCover(bits, size, n);
    CellsCover(bits, size, m);
    forall k | 0 <= k < m ensures bytes[k] == Pieces(b, size)[k] {
      StoredCell(a, i, b, size, k);
    }
    assert bytes == Pieces(b, size)[..m];
    PiecesJoin(b, size);
    if m < n {
      CellsCover(b.width, size, m);
      FullPiecesJoin(b, size, m, m * size);
      CutLow(b, m * size, bits);
    } else {
      assert Pieces(b, size)[..m] == Pieces(b, size);
      CutExtended(b, m * size, bits);
    }
  }

  lemma CutLow(b: Bits, width: nat, bits: nat)
    requires Fits(b) && 0 < bits <= width < b.width
    ensures AdaptTo(Bits(width, b.val % Pow2(width)), bits, false) == AdaptTo(b, bits, true)
  {
    assert Pow2(0) == 1;
    LowBitsOfLow(b.val, width, bits);
  }

  lemma CutExtended(b: Bits, width: nat, bits: nat)
    requires Fits(b) && 0 < bits <= width && b.width <= width
    ensures Fits(Sext(b, width)) && AdaptTo(Sext(b, width), bits, false) == AdaptTo(b, bits, true)
  {
    SextFits(b, width);
    var s := Sext(b, width);
    assert Pow2(0) == 1;
    if bits == width {
      assert width == b.width ==> s == b;
    } else {
      assert AdaptTo(s, bits, false) == Bits(bits, s.val % Pow2(bits));
      SextLow(b, width, bits);
    }
  }

  /** The low bits of a sign-extended value. */
  lemma SextLow(b: Bits, width: nat, bits: nat)
    requires Fits(b) && 0 < bits <= width && b.width <= width
    ensures bits <= b.width ==> Sext(b, width).val % Pow2(bits) == b.val % Pow2(bits)
    ensures bits >= b.width ==> Sext(b, width).val % Pow2(bits) == Sext(b, bits).val
  {
    if bits <= b.width {
      DropHigh(b.val, width, b.width, bits);
    }
    if bits >= b.width {
      SextFits(b, bits);
      SmallMod(Sext(b, bits).val, Pow2(bits));
      DropHigh(Sext(b, bits).val, width, bits, bits);
      SextTwice(b, bits, width);
    }
  }

  lemma SextTwice(b: Bits, bits: nat, width: nat)
    requires Fits(b) && b.width <= bits <= width
    ensures Sext(b, width).val == Sext(b, bits).val + (if b.val < Pow2(b.width - 1) then 0 else PowDiff(width, bits))
  {
  }

  /** Bits that sign extension sets do not reach down to those below. */
  lemma DropHigh(v: nat, m: nat, n: nat, bits: nat)
    requires bits <= n <= m
    ensures (v + PowDiff(m, n)) % Pow2(bits) == v % Pow2(bits)
  {
    var k := Pow2(m - bits) - Pow2(n - bits);
    PowAdds(bits, m - bits);
    PowAdds(bits, n - bits);
    ScaleDiff(Pow2(m - bits), Pow2(n - bits), Pow2(bits), 0);
    ModDrops(k, Pow2(bits), v);
  }

  /** Reading the width that was stored gives back what was stored. */
  lemma ReadBack(a: ArrVal, i: int, b: Bits, size: nat)
    requires Fits(b) && size > 0 && Cells(b.width, size) <= WORD
    ensures Selected(Stored(a, i, b, size), i, b.width, size) == b
  {
    PiecesJoin(b, size);
    ReadOverWrite(a, i, b, b.width, size);
  }

  /** A value whose cells are all apart from the stored ones is unchanged. */
  lemma DisjointRead(a: ArrVal, i: int, b: Bits, j: int, bits: nat, size: nat)
    requires Fits(b) && size > 0 && bits > 0
    requires forall k: nat | k < Cells(bits, size) :: !InFootprint(At(j, k), i, Cells(b.width, size))
    ensures Selected(Stored(a, i, b, size), j, bits, size) == Selected(a, j, bits, size)
  {
    var m := Cells(bits, size);
    var after := Stored(a, i, b, size);
    var now, was := CellsFrom(after, j, m, size), CellsFrom(a, j, m, size);
    forall k | 0 <= k < m ensures now[k] == was[k] {
      StoredElsewhere(a, i, b, size, At(j, k));
    }
    assert now == was;
  }

  /** Without wrapping, footprints are disjoint when the intervals of cells are. */
  lemma IntervalsApart(i: nat, n: nat, j: nat, m: nat)
    requires i + n <= WORD && j + m <= WORD && (i + n <= j || j + m <= i)
    ensures forall k: nat | k < m :: !InFootprint(At(j, k), i, n)
  {
    forall k: nat, l: nat | k < m && l < n ensures At(i, l) != At(j, k) {
      SmallMod(i + l, WORD);
      SmallMod(j + k, WORD);
    }
  }
}
