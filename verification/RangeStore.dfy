/** Zero initialisation: by a loop of writes, or by one axiom over all pointers. */
module RangeStore {
  import opened SmtLogic

  const HALF: nat := WORD / 2

  /** The pointer i cells on. */
  function At(base: int, i: nat): int {
    Wrap(base + i)
  }

  function Written(m: ArrVal, base: int, size: nat, val: int): ArrVal {
    if size == 0 then m else Written(m, base, size - 1, val)[At(base, size - 1) := val]
  }

  const COUNTS: nat := 0x1_0000_0000

  datatype Loop = Loop(i: nat, mem: ArrVal)

  /** The counter, an unsigned 32-bit integer, and the memory after so many turns at most. */
  function Turned(m: ArrVal, base: int, size: nat, zero: int, turns: nat): Loop {
    if turns == 0 then Loop(0, m)
    else
      var s := Turned(m, base, size, zero, turns - 1);
      if s.i < size then Loop((s.i + 1) % COUNTS, s.mem[At(base, s.i) := zero]) else s
  }

  /** The loop, stopped after so many turns if it has not ended. */
  method WriteZeros(m: ArrVal, base: int, size: nat, zero: int, turns: nat) returns (i: nat, r: ArrVal)
    ensures Loop(i, r) == Turned(m, base, size, zero, turns)
  {
    i, r := 0, m;
    var n: nat := 0;
    while i < size && n < turns
      invariant n <= turns && Loop(i, r) == Turned(m, base, size, zero, n)
      decreases turns - n
    {
      r := r[At(base, i) := zero];
      i := (i + 1) % COUNTS;
      n := n + 1;
    }
    EndedStays(m, base, size, zero, n, turns);
  }

  lemma {:induction false} EndedStays(m: ArrVal, base: int, size: nat, zero: int, n: nat, turns: nat)
    requires n <= turns && (Turned(m, base, size, zero, n).i >= size || n == turns)
    ensures Turned(m, base, size, zero, turns) == Turned(m, base, size, zero, n)
    decreases turns
  {
    if n < turns {
      EndedStays(m, base, size, zero, n, turns - 1);
    }
  }

  /** The loop ends exactly if the range has fewer than 2^32 cells, and then it has written
    * each of them. */
  lemma LoopEndsIff(m: ArrVal, base: int, size: nat, zero: int)
    ensures (exists n: nat :: Turned(m, base, size, zero, n).i >= size) <==> size < COUNTS
    ensures size < COUNTS ==> Turned(m, base, size, zero, size) == Loop(size, Written(m, base, size, zero))
  {
    if size < COUNTS {
      TurnsWrite(m, base, size, zero, size);
    } else {
      forall n: nat ensures Turned(m, base, size, zero, n).i < size {
        CounterIsSmall(m, base, size, zero, n);
      }
    }
  }

  lemma {:induction false} TurnsWrite(m: ArrVal, base: int, size: nat, zero: int, n: nat)
    requires n <= size < COUNTS
    ensures Turned(m, base, size, zero, n) == Loop(n, Written(m, base, n, zero))
  {
    if n > 0 {
      TurnsWrite(m, base, size, zero, n - 1);
    }
  }

  lemma {:induction false} CounterIsSmall(m: ArrVal, base: int, size: nat, zero: int, n: nat)
    ensures Turned(m, base, size, zero, n).i < COUNTS
  {
    if n > 0 {
      CounterIsSmall(m, base, size, zero, n - 1);
    }
  }

  /** The pointers that the axiom takes to be in the range: its comparisons are signed. */
  predicate InRange(p: int, from: int, size: nat) {
    Signed(p) >= Signed(from) && Signed(p) < Signed(At(from, size))
  }

  ghost predicate RangeAxiom(before: ArrVal, after: ArrVal, from: int, size: nat, val: int) {
    forall p | 0 <= p < WORD :: after[p] == if InRange(p, from, size) then val else before[p]
  }

  ghost predicate SameCells(a: ArrVal, b: ArrVal) {
    forall p | 0 <= p < WORD :: a[p] == b[p]
  }

  /** The pointers that the loop writes. */
  ghost predicate IsWritten(p: int, base: int, size: nat) {
    exists i: nat :: i < size && At(base, i) == p
  }

  lemma {:induction false} WrittenAt(m: ArrVal, base: int, size: nat, val: int, p: int)
    ensures Written(m, base, size, val)[p] == if IsWritten(p, base, size) then val else m[p]
  {
    if size > 0 {
      WrittenAt(m, base, size - 1, val, p);
      if IsWritten(p, base, size) {
        var i: nat :| i < size && At(base, i) == p;
        assert i < size - 1 ==> IsWritten(p, base, size - 1);
      }
    }
  }

  /** The condition under which the range does not wrap around as signed pointers. */
  predicate NoWrap(from: int, size: nat) {
    size == 0 || Signed(from) + size < HALF
  }

  lemma RangeIsWritten(from: int, size: nat, p: int)
    requires 0 <= p < WORD && size < WORD && NoWrap(from, size)
    ensures InRange(p, from, size) <==> IsWritten(p, from, size)
  {
    SignedAdds(from, size);
    if InRange(p, from, size) {
      var i: nat := Signed(p) - Signed(from);
      SignedAdds(from, i);
      SameWord(p, At(from, i));
    }
    if IsWritten(p, from, size) {
      var i: nat :| i < size && At(from, i) == p;
      SignedAdds(from, i);
    }
  }

  lemma SignedAdds(from: int, i: nat)
    requires Signed(from) + i < HALF
    ensures Signed(At(from, i)) == Signed(from) + i
  {
    var n := Signed(from) + i;
    SignedSplits(from);
    SameRemainder(from + i, n, (from - Signed(from)) / WORD);
  }

  /** A number is its signed reading and whole words. */
  lemma SignedSplits(n: int)
    ensures n == (n - Signed(n)) / WORD * WORD + Signed(n) && -(HALF as int) <= Signed(n) < HALF
  {
    var q := n / WORD;
    assert n == q * WORD + Wrap(n);
    WholeWords(if Signed(n) < 0 then q + 1 else q);
  }

  lemma WholeWords(q: int)
    ensures q * WORD / WORD == q
  {
  }

  lemma SameRemainder(n: int, r: int, q: int)
    requires n == q * WORD + r && -(HALF as int) <= r < HALF
    ensures Signed(Wrap(n)) == r
  {
    if r >= 0 {
      WordRemainder(n, q, r);
    } else {
      WordRemainder(n, q - 1, r + WORD);
    }
  }

  lemma WordRemainder(n: int, q: int, r: nat)
    requires n == q * WORD + r && r < WORD
    ensures Wrap(n) == r && Wrap(r) == r
  {
  }

  lemma SameWord(p: int, q: int)
    requires 0 <= p < WORD && 0 <= q < WORD && Signed(p) == Signed(q)
    ensures p == q
  {
  }

  /** A range that wraps around is empty to the axiom. */
  lemma WrappedRangeIsEmpty(from: int, size: nat, p: int)
    requires size < WORD && !NoWrap(from, size)
    ensures !InRange(p, from, size)
  {
    SignedSplits(from);
    SameRemainder(from + size, Signed(from) + size - WORD, (from - Signed(from)) / WORD + 1);
  }

  /** The arrays that satisfy the axiom are those that the loop produces, for all memories
    * and values, exactly if the range does not wrap around as signed pointers. */
  lemma RangeStoreIsLoopIff(from: int, size: nat)
    requires size < WORD
    ensures (forall m: ArrVal, r: ArrVal, val: int ::
               RangeAxiom(m, r, from, size, val) <==> SameCells(r, Written(m, from, size, val)))
      <==> NoWrap(from, size)
  {
    if NoWrap(from, size) {
      forall m: ArrVal, r: ArrVal, val: int
        ensures RangeAxiom(m, r, from, size, val) <==> SameCells(r, Written(m, from, size, val))
      {
        RangeStoreIsLoop(m, r, from, size, val);
      }
    } else {
      WrappedRangeStoresNothing(Constant(1), from, size, 0);
    }
  }

  lemma RangeStoreIsLoop(m: ArrVal, r: ArrVal, from: int, size: nat, val: int)
    requires size < WORD && NoWrap(from, size)
    ensures RangeAxiom(m, r, from, size, val) <==> SameCells(r, Written(m, from, size, val))
  {
    forall p | 0 <= p < WORD
      ensures Written(m, from, size, val)[p] == if InRange(p, from, size) then val else m[p]
    {
      WrittenAt(m, from, size, val, p);
      RangeIsWritten(from, size, p);
    }
  }

  /** Then the axiom leaves memory as it was, while the loop writes the first cell. */
  lemma WrappedRangeStoresNothing(m: ArrVal, from: int, size: nat, val: int)
    requires size < WORD && !NoWrap(from, size)
    ensures RangeAxiom(m, m, from, size, val)
    ensures Written(m, from, size, val)[At(from, 0)] == val
  {
    forall p | 0 <= p < WORD ensures !InRange(p, from, size) {
      WrappedRangeIsEmpty(from, size, p);
    }
    WrittenAt(m, from, size, val, At(from, 0));
  }

  /** The axiom can always be met. */
  lemma RangeAxiomHasModel(m: ArrVal, from: int, size: nat, val: int)
    requires size < WORD
    ensures exists r: ArrVal :: RangeAxiom(m, r, from, size, val)
  {
    if NoWrap(from, size) {
      RangeStoreIsLoop(m, Written(m, from, size, val), from, size, val);
      assert RangeAxiom(m, Written(m, from, size, val), from, size, val);
    } else {
      WrappedRangeStoresNothing(m, from, size, val);
    }
  }
}
