/** Casting a vector of integers to one with elements of another width, in either byte
  * order, and the bits it conserves. */
module VectorBitcast {
  import opened Bits

  // ---------- positional values ----------

  function Power(b: nat, n: nat): (p: nat)
    ensures b > 0 ==> p > 0
  {
    if n == 0 then 1 else Power(b, n - 1) * b
  }

  predicate AllBelow(elems: seq<nat>, b: nat) {
    forall i | 0 <= i < |elems| :: elems[i] < b
  }

  /** The number whose digits to the base b are the elements, the first the lowest if little
    * endian and the highest if not. */
  function Value(elems: seq<nat>, b: nat, little: bool): nat
    decreases |elems|
  {
    if elems == [] then 0
    else
      var n := |elems| - 1;
      var before := Value(elems[..n], b, little);
      if little then before + elems[n] * Power(b, n) else before * b + elems[n]
  }

  lemma {:induction false} PowerAdds(b: nat, m: nat, n: nat)
    ensures Power(b, m + n) == Power(b, m) * Power(b, n)
    decreases n
  {
    if n > 0 {
      PowerAdds(b, m, n - 1);
      Associate(Power(b, m), Power(b, n - 1), b);
      assert m + n - 1 == m + (n - 1);
    }
  }

  lemma {:induction false} PowerOfPower(b: nat, r: nat, n: nat)
    ensures Power(Power(b, r), n) == Power(b, n * r)
    decreases n
  {
    if n > 0 {
      PowerOfPower(b, r, n - 1);
      PowerAdds(b, (n - 1) * r, r);
      assert (n - 1) * r + r == n * r;
    } else {
      assert n * r == 0;
    }
  }

  lemma {:induction false} PowerOfTwo(width: nat, n: nat)
    ensures Power(Pow2(width), n) == Pow2(n * width)
    decreases n
  {
    if n > 0 {
      PowerOfTwo(width, n - 1);
      PowAdds((n - 1) * width, width);
      assert (n - 1) * width + width == n * width;
    } else {
      assert n * width == 0;
    }
  }

  lemma Associate(x: int, y: int, z: int)
    ensures x * (y * z) == (x * y) * z
  {
  }

  lemma ValueSnoc(p: seq<nat>, x: nat, b: nat, little: bool)
    ensures Value(p + [x], b, little) ==
      if little then Value(p, b, little) + x * Power(b, |p|) else Value(p, b, little) * b + x
  {
    assert (p + [x])[..|p|] == p;
  }

  lemma {:induction false} ValueBound(elems: seq<nat>, b: nat, little: bool)
    requires b > 0 && AllBelow(elems, b)
    ensures Value(elems, b, little) < Power(b, |elems|)
    decreases |elems|
  {
    if elems != [] {
      var n := |elems| - 1;
      var before := Value(elems[..n], b, little);
      ValueBound(elems[..n], b, little);
      if little {
        DigitBound(elems[n], b, before, Power(b, n));
      } else {
        DigitBound(before, Power(b, n), elems[n], b);
        Commute(Power(b, n), b);
      }
    }
  }

  /** The value of a vector that is put together from two. */
  lemma {:induction false} ValueConcat(p: seq<nat>, q: seq<nat>, b: nat, little: bool)
    ensures Value(p + q, b, little) ==
      if little then Value(p, b, little) + Value(q, b, little) * Power(b, |p|)
      else Value(p, b, little) * Power(b, |q|) + Value(q, b, little)
    decreases |q|
  {
    if q == [] {
      assert p + q == p;
    } else {
      var n := |q| - 1;
      var init, x := q[..n], q[n];
      ValueConcat(p, init, b, little);
      assert p + q == (p + init) + [x] && q == init + [x];
      if little {
        ConcatLittle(p, init, x, b);
      } else {
        ConcatBig(p, init, x, b);
      }
    }
  }

  lemma ConcatLittle(p: seq<nat>, init: seq<nat>, x: nat, b: nat)
    requires Value(p + init, b, true) == Value(p, b, true) + Value(init, b, true) * Power(b, |p|)
    ensures Value(p + init + [x], b, true) == Value(p, b, true) + Value(init + [x], b, true) * Power(b, |p|)
  {
    ValueSnoc(p + init, x, b, true);
    ValueSnoc(init, x, b, true);
    PowerAdds(b, |p|, |init|);
    LittleStep(Value(p + init, b, true), Value(p, b, true), Value(init, b, true), Value(init + [x], b, true), x,
               Power(b, |p|), Power(b, |init|), Power(b, |p| + |init|));
  }

  lemma LittleStep(w: nat, v: nat, u: nat, y: nat, x: nat, d: nat, e: nat, f: nat)
    requires w == v + u * d && y == u + x * e && f == d * e
    ensures w + x * f == v + y * d
  {
    AppendLittle(v, u, x, d, e);
  }

  lemma ConcatBig(p: seq<nat>, init: seq<nat>, x: nat, b: nat)
    requires Value(p + init, b, false) == Value(p, b, false) * Power(b, |init|) + Value(init, b, false)
    ensures Value(p + init + [x], b, false)
      == Value(p, b, false) * Power(b, |init| + 1) + Value(init + [x], b, false)
  {
    ValueSnoc(p + init, x, b, false);
    ValueSnoc(init, x, b, false);
    BigStep(Value(p + init, b, false), Value(p, b, false), Value(init, b, false), Value(init + [x], b, false), x,
            Power(b, |init|), Power(b, |init| + 1), b);
  }

  lemma BigStep(w: nat, v: nat, u: nat, y: nat, x: nat, d: nat, f: nat, b: nat)
    requires w == v * d + u && y == u * b + x && f == d * b
    ensures w * b + x == v * f + y
  {
    AppendBig(v, u, x, d, b);
  }

  lemma AppendLittle(v: nat, u: nat, x: nat, d: nat, e: nat)
    ensures v + u * d + x * (d * e) == v + (u + x * e) * d
  {
  }

  lemma AppendBig(v: nat, u: nat, x: nat, d: nat, e: nat)
    ensures (v * d + u) * e + x == v * (d * e) + (u * e + x)
  {
  }

  /** Two vectors of the same shape with the same value are the same. */
  lemma {:induction false} ValueIsInjective(p: seq<nat>, q: seq<nat>, b: nat, little: bool)
    requires b > 0 && |p| == |q| && AllBelow(p, b) && AllBelow(q, b)
    requires Value(p, b, little) == Value(q, b, little)
    ensures p == q
    decreases |p|
  {
    if p != [] {
      var n := |p| - 1;
      var v, u := Value(p[..n], b, little), Value(q[..n], b, little);
      if little {
        ValueBound(p[..n], b, little);
        ValueBound(q[..n], b, little);
        DivUnique(Value(p, b, little), Power(b, n), p[n], v);
        DivUnique(Value(p, b, little), Power(b, n), q[n], u);
      } else {
        DivUnique(Value(p, b, little), b, v, p[n]);
        DivUnique(Value(p, b, little), b, u, q[n]);
      }
      ValueIsInjective(p[..n], q[..n], b, little);
    }
  }

  /** Digit j of a number, counted in the given order. */
  function DigitOf(x: nat, r: nat, j: nat, b: nat, little: bool): nat
    requires b > 0 && j < r
  {
    x / Power(b, if little then j else r - 1 - j) % b
  }

  function Digits(x: nat, r: nat, b: nat, little: bool): (ds: seq<nat>)
    requires b > 0
    ensures |ds| == r && AllBelow(ds, b)
  {
    seq(r, j requires 0 <= j < r => DigitOf(x, r, j, b, little))
  }

  /** The r digits of a number have its value, up to b^r. */
  lemma {:induction false} DigitsValue(x: nat, r: nat, b: nat, little: bool)
    requires b > 0
    ensures Value(Digits(x, r, b, little), b, little) == x % Power(b, r)
    decreases r
  {
    if r > 0 {
      var p := Power(b, r - 1);
      if little {
        assert Digits(x, r, b, true) == Digits(x, r - 1, b, true) + [x / p % b];
        DigitsValue(x, r - 1, b, true);
        ValueSnoc(Digits(x, r - 1, b, true), x / p % b, b, true);
        SplitMod(x, p, b);
      } else {
        BigDigits(x, r, b);
        DigitsValue(x / b, r - 1, b, false);
        ValueSnoc(Digits(x / b, r - 1, b, false), x % b, b, false);
        SplitMod(x, b, p);
        Commute(b, p);
      }
    }
  }

  lemma BigDigits(x: nat, r: nat, b: nat)
    requires r > 0 && b > 0
    ensures Digits(x, r, b, false) == Digits(x / b, r - 1, b, false) + [x % b]
  {
    forall j | 0 <= j < r - 1 ensures DigitOf(x, r, j, b, false) == DigitOf(x / b, r - 1, j, b, false) {
      var p := Power(b, r - 2 - j);
      DivDiv(x, b, p);
      Commute(b, p);
    }
    assert DigitOf(x, r, r - 1, b, false) == x % b;
  }

  lemma DivDiv(x: nat, d: nat, e: nat)
    requires d > 0 && e > 0
    ensures d * e > 0 && x / d / e == x / (d * e)
  {
    var h, l := x / d, x % d;
    var q, r := h / e, h % e;
    MulSign(e, d);
    assert x == h * d + l;
    assert h * d == (q * e + r) * d;
    Distribute(q, e, r, d);
    DigitBound(r, e, l, d);
    DivUnique(x, d * e, q, r * d + l);
  }

  // ---------- the cast ----------

  /** Each group of r elements becomes one. */
  function Merged(src: seq<nat>, n: nat, r: nat, b: nat, little: bool): (dst: seq<nat>)
    requires |src| == n * r
    ensures |dst| == n
    decreases n
  {
    if n == 0 then []
    else
      TimesSum(n - 1, 1, r);
      var m := |src| - r;
      Merged(src[..m], n - 1, r, b, little) + [Value(src[m..], b, little)]
  }

  /** Each element becomes a group of r. */
  function Split(src: seq<nat>, r: nat, b: nat, little: bool): seq<nat>
    requires b > 0
    decreases |src|
  {
    if src == [] then []
    else
      var n := |src| - 1;
      Split(src[..n], r, b, little) + Digits(src[n], r, b, little)
  }

  /** The ratio of the element counts is rounded down. */
  function Bitcast(src: seq<nat>, srcBits: nat, dstNum: nat, dstBits: nat, little: bool): seq<nat>
    requires src != [] && dstNum > 0
  {
    if dstNum < |src| then
      RatioFits(|src|, dstNum);
      var r := |src| / dstNum;
      Merged(src[..dstNum * r], dstNum, r, Pow2(srcBits), little)
    else Split(src, dstNum / |src|, Pow2(dstBits), little)
  }

  lemma RatioFits(m: nat, n: nat)
    requires n > 0
    ensures n * (m / n) == m - m % n && n * (m / n) <= m
  {
    assert m == (m / n) * n + m % n;
  }

  /** Merging groups keeps the value of the elements that the groups cover. */
  lemma {:induction false} MergedValue(src: seq<nat>, n: nat, r: nat, b: nat, little: bool)
    requires b > 0 && |src| == n * r && AllBelow(src, b)
    ensures AllBelow(Merged(src, n, r, b, little), Power(b, r))
    ensures Value(Merged(src, n, r, b, little), Power(b, r), little) == Value(src, b, little)
    decreases n
  {
    TimesSum(n - 1, 1, r);
    if n > 0 {
      var m := |src| - r;
      MergedValue(src[..m], n - 1, r, b, little);
      assert src == src[..m] + src[m..];
      MergeOne(Merged(src[..m], n - 1, r, b, little), src[..m], src[m..], n - 1, r, b, little);
    }
  }

  lemma TimesSum(m: int, n: int, x: int)
    ensures (m + n) * x == m * x + n * x
  {
  }

  /** One more group, after groups with the value of the elements before it. */
  lemma MergeOne(merged: seq<nat>, before: seq<nat>, group: seq<nat>, n: nat, r: nat, b: nat, little: bool)
    requires b > 0 && AllBelow(group, b) && |merged| == n && |group| == r && |before| == n * r
    requires Value(merged, Power(b, r), little) == Value(before, b, little)
    ensures Value(group, b, little) < Power(b, r)
    ensures Value(merged + [Value(group, b, little)], Power(b, r), little) == Value(before + group, b, little)
  {
    ValueBound(group, b, little);
    ValueConcat(before, group, b, little);
    ValueSnoc(merged, Value(group, b, little), Power(b, r), little);
    PowerOfPower(b, r, n);
  }

  /** Splitting elements keeps their value. */
  lemma {:induction false} SplitValue(src: seq<nat>, r: nat, b: nat, little: bool)
    requires b > 0 && AllBelow(src, Power(b, r))
    ensures |Split(src, r, b, little)| == |src| * r
    ensures AllBelow(Split(src, r, b, little), b)
    ensures Value(Split(src, r, b, little), b, little) == Value(src, Power(b, r), little)
    decreases |src|
  {
    if src == [] {
      assert |src| * r == 0;
    } else {
      var n := |src| - 1;
      var init, x := src[..n], src[n];
      var ds := Digits(x, r, b, little);
      SplitValue(init, r, b, little);
      assert src == init + [x];
      TimesSum(n, 1, r);
      DigitsValue(x, r, b, little);
      SmallMod(x, Power(b, r));
      MergeOne(init, Split(init, r, b, little), ds, |init|, r, b, little);
    }
  }

  // ---------- the loops ----------

  /** Shift amounts are unsigned 32-bit integers. */
  const UNSIGNED: nat := 0x1_0000_0000

  function BitOr(a: nat, b: nat): nat
    decreases a + b
  {
    if a == 0 then b
    else if b == 0 then a
    else 2 * BitOr(a / 2, b / 2) + (if a % 2 == 1 || b % 2 == 1 then 1 else 0)
  }

  /** Without common bits, or is addition. */
  lemma {:induction false} OrOfApart(low: nat, high: nat, n: nat)
    requires low < Pow2(n)
    ensures BitOr(low, high * Pow2(n)) == BitOr(high * Pow2(n), low) == low + high * Pow2(n)
    decreases n
  {
    if n > 0 && low > 0 && high > 0 {
      var b := high * Pow2(n - 1);
      Reassociate(high, Pow2(n - 1));
      MulSign(high, Pow2(n - 1));
      OrOfApart(low / 2, high, n - 1);
      assert high * Pow2(n) == 2 * b;
    } else {
      assert low == 0 || high == 0;
      assert high == 0 ==> high * Pow2(n) == 0;
    }
  }

  function ShiftLeft(x: nat, amount: nat, width: nat): nat {
    x * Pow2(amount) % Pow2(width)
  }

  function Wrap(n: int): (w: nat)
    ensures w < UNSIGNED
    ensures 0 <= n < UNSIGNED ==> w == n
    ensures 0 <= n + UNSIGNED < UNSIGNED ==> w == n + UNSIGNED
  {
    n % UNSIGNED
  }

  /** The shift amount of element j of a group of r. */
  function ShiftOf(j: int, r: nat, width: nat, little: bool): int {
    if little then j * width else (r - 1 - j) * width
  }

  lemma NextShift(j: nat, r: nat, width: nat, little: bool)
    ensures ShiftOf(j + 1, r, width, little)
      == if little then ShiftOf(j, r, width, little) + width else ShiftOf(j, r, width, little) - width
  {
  }

  lemma ShiftFits(j: nat, r: nat, width: nat, little: bool)
    requires j < r
    ensures 0 <= ShiftOf(j, r, width, little) && ShiftOf(j, r, width, little) + width <= r * width
  {
    MulMonotone(if little then j + 1 else r - j, r, width);
    NextShift(j, r, width, little);
    assert (r - j) * width == (r - 1 - j) * width + width;
  }

  /** Puts a group of elements together, with a running shift amount that wraps around after
    * the last element of a big-endian group. */
  method MergeGroup(group: seq<nat>, srcBits: nat, dstBits: nat, little: bool) returns (elt: nat)
    requires group != [] && AllBelow(group, Pow2(srcBits)) && |group| * srcBits <= dstBits < UNSIGNED
    ensures elt == Value(group, Pow2(srcBits), little)
  {
    var r := |group|;
    elt := 0;
    var shiftAmt := Wrap(if little then 0 else srcBits * (r - 1));
    FirstShift(group, srcBits, little);
    for j := 0 to r
      invariant shiftAmt == Wrap(ShiftOf(j, r, srcBits, little))
      invariant elt == Placed(group[..j], r, srcBits, little)
    {
      MergeStep(group, j, srcBits, dstBits, little, elt, shiftAmt);
      elt := BitOr(elt, ShiftLeft(group[j], shiftAmt, dstBits));
      shiftAmt := Wrap(if little then shiftAmt + srcBits else shiftAmt - srcBits);
    }
    AllPlaced(group, srcBits, little);
  }

  lemma FirstShift(group: seq<nat>, width: nat, little: bool)
    requires group != []
    ensures ShiftOf(0, |group|, width, little) == (if little then 0 else width * (|group| - 1))
    ensures Placed(group[..0], |group|, width, little) == 0
  {
    assert 0 * width == 0;
    assert group[..0] == [];
    assert 0 * Pow2(|group| * width) == 0;
  }

  lemma AllPlaced(group: seq<nat>, width: nat, little: bool)
    ensures Placed(group[..|group|], |group|, width, little) == Value(group, Pow2(width), little)
  {
    assert group[..|group|] == group && Pow2(0) == 1 && 0 * width == 0;
  }

  /** One turn of the loop. */
  lemma MergeStep(group: seq<nat>, j: nat, width: nat, dstBits: nat, little: bool, elt: nat, shiftAmt: nat)
    requires j < |group| && AllBelow(group, Pow2(width)) && |group| * width <= dstBits < UNSIGNED
    requires shiftAmt == Wrap(ShiftOf(j, |group|, width, little)) && elt == Placed(group[..j], |group|, width, little)
    ensures BitOr(elt, ShiftLeft(group[j], shiftAmt, dstBits)) == Placed(group[..j + 1], |group|, width, little)
    ensures Wrap(if little then shiftAmt + width else shiftAmt - width) == Wrap(ShiftOf(j + 1, |group|, width, little))
  {
    ShiftFits(j, |group|, width, little);
    NextShift(j, |group|, width, little);
    OrPlaces(group, j, width, dstBits, little);
    Unwrapped(ShiftOf(j, |group|, width, little));
  }

  lemma Unwrapped(n: int)
    requires 0 <= n < UNSIGNED
    ensures Wrap(n) == n
  {
  }

  /** The first elements of a group of r, in their places. */
  function Placed(p: seq<nat>, r: nat, width: nat, little: bool): nat
    requires |p| <= r
  {
    var v := Value(p, Pow2(width), little);
    if little then v else v * Pow2((r - |p|) * width)
  }

  /** Or-ing in the next element puts it into its place. */
  lemma OrPlaces(group: seq<nat>, j: nat, width: nat, dstBits: nat, little: bool)
    requires j < |group| && AllBelow(group, Pow2(width)) && |group| * width <= dstBits
    ensures ShiftOf(j, |group|, width, little) >= 0
    ensures BitOr(Placed(group[..j], |group|, width, little),
                  ShiftLeft(group[j], ShiftOf(j, |group|, width, little), dstBits))
      == Placed(group[..j + 1], |group|, width, little)
  {
    var b, x, v := Pow2(width), group[j], Value(group[..j], Pow2(width), little);
    ShiftFits(j, |group|, width, little);
    var s := ShiftOf(j, |group|, width, little);
    NothingShiftedOut(x, s, width, dstBits);
    assert group[..j + 1] == group[..j] + [x];
    ValueSnoc(group[..j], x, b, little);
    if little {
      ValueBound(group[..j], b, little);
      PowerOfTwo(width, j);
      OrOfApart(v, x, s);
    } else {
      NextPlace(|group|, j, width);
      OrAbove(v, b, x, s, width, Pow2((|group| - j) * width));
    }
  }

  lemma NextPlace(r: nat, j: nat, width: nat)
    requires j < r
    ensures (r - j) * width == (r - 1 - j) * width + width && r - (j + 1) == r - 1 - j
  {
  }

  /** The element goes below the places of those before it. */
  lemma OrAbove(v: nat, b: nat, x: nat, s: nat, width: nat, above: nat)
    requires b == Pow2(width) && x < b && above == Pow2(s + width)
    ensures BitOr(v * above, x * Pow2(s)) == (v * b + x) * Pow2(s)
  {
    PowAdds(s, width);
    DigitBound(x, b, 0, Pow2(s));
    OrOfApart(x * Pow2(s), v, s + width);
    Shifted(v, b, x, Pow2(s));
  }

  lemma Shifted(v: nat, b: nat, x: nat, d: nat)
    ensures (v * b + x) * d == v * (d * b) + x * d
  {
  }

  lemma NothingShiftedOut(x: nat, s: nat, width: nat, dstBits: nat)
    requires x < Pow2(width) && s + width <= dstBits
    ensures x * Pow2(s) < Pow2(s + width) && ShiftLeft(x, s, dstBits) == x * Pow2(s)
  {
    PowAdds(s, width);
    DigitBound(x, Pow2(width), 0, Pow2(s));
    PowMonotone(s + width, dstBits);
    SmallMod(x * Pow2(s), Pow2(dstBits));
  }

  /** Takes an element apart, with a running shift amount. */
  method SplitElement(x: nat, r: nat, srcBits: nat, dstBits: nat, little: bool) returns (elts: seq<nat>)
    requires r > 0 && x < Pow2(srcBits) && r * dstBits <= srcBits < UNSIGNED && (dstBits == srcBits ==> r == 1)
    ensures elts == Digits(x, r, Pow2(dstBits), little)
  {
    elts := [];
    var shiftAmt := Wrap(if little then 0 else dstBits * (r - 1));
    for j := 0 to r
      invariant shiftAmt == Wrap(ShiftOf(j, r, dstBits, little))
      invariant elts == Digits(x, r, Pow2(dstBits), little)[..j]
    {
      ShiftFits(j, r, dstBits, little);
      NextShift(j, r, dstBits, little);
      DigitIsShifted(x, r, j, srcBits, dstBits, little);
      var elt := x / Pow2(shiftAmt);
      if dstBits < srcBits {
        elt := elt % Pow2(dstBits);
      }
      elts := elts + [elt];
      shiftAmt := Wrap(if little then shiftAmt + dstBits else shiftAmt - dstBits);
    }
  }

  lemma DigitIsShifted(x: nat, r: nat, j: nat, srcBits: nat, dstBits: nat, little: bool)
    requires j < r && x < Pow2(srcBits) && (dstBits == srcBits ==> r == 1)
    ensures ShiftOf(j, r, dstBits, little) >= 0
    ensures var elt := x / Pow2(ShiftOf(j, r, dstBits, little));
      && DigitOf(x, r, j, Pow2(dstBits), little) == elt % Pow2(dstBits)
      && (dstBits == srcBits ==> elt % Pow2(dstBits) == elt)
  {
    ShiftFits(j, r, dstBits, little);
    PowerOfTwo(dstBits, if little then j else r - 1 - j);
    if dstBits == srcBits {
      assert ShiftOf(j, r, dstBits, little) == 0 && Pow2(0) == 1;
      SmallMod(x, Pow2(dstBits));
    }
  }

  /** The vector part of the cast, for elements of integers. */
  method ExecuteBitCast(src: seq<nat>, srcBits: nat, dstNum: nat, dstBits: nat, little: bool) returns (dst: seq<nat>)
    requires src != [] && dstNum > 0 && srcBits > 0 && AllBelow(src, Pow2(srcBits))
    requires |src| * srcBits == dstNum * dstBits < UNSIGNED
    ensures dst == Bitcast(src, srcBits, dstNum, dstBits, little)
  {
    var srcNum := |src|;
    dst := [];
    if dstNum < srcNum {
      var ratio := srcNum / dstNum;
      RatioFits(srcNum, dstNum);
      GroupFits(srcNum, srcBits, dstNum, dstBits);
      var srcElt := 0;
      for i := 0 to dstNum
        invariant srcElt == i * ratio <= srcNum
        invariant dst == Merged(src[..srcElt], i, ratio, Pow2(srcBits), little)
      {
        NextGroup(i, ratio, dstNum);
        assert src[..srcElt + ratio][..srcElt] == src[..srcElt];
        var elt := MergeGroup(src[srcElt..srcElt + ratio], srcBits, dstBits, little);
        srcElt := srcElt + ratio;
        dst := dst + [elt];
      }
    } else {
      var ratio := dstNum / srcNum;
      GroupFits(dstNum, dstBits, srcNum, srcBits);
      for i := 0 to srcNum
        invariant dst == Split(src[..i], ratio, Pow2(dstBits), little)
      {
        assert src[..i + 1][..i] == src[..i];
        var elts := SplitElement(src[i], ratio, srcBits, dstBits, little);
        dst := dst + elts;
      }
      assert src[..srcNum] == src;
    }
  }

  lemma NextGroup(i: nat, ratio: nat, n: nat)
    requires i < n
    ensures (i + 1) * ratio == i * ratio + ratio && (i + 1) * ratio <= n * ratio
  {
    MulMonotone(i + 1, n, ratio);
  }

  /** A group of narrow elements fits in a wide one. */
  lemma GroupFits(m: nat, narrow: nat, n: nat, wide: nat)
    requires 0 < n <= m && m * narrow == n * wide
    ensures m / n > 0 && m / n * narrow <= wide && wide <= n * wide
    ensures wide > 0 && narrow == wide ==> m / n == 1
  {
    var r := m / n;
    assert m == r * n + m % n;
    MulMonotone(n * r, m, narrow);
    Associate(n, r, narrow);
    assert n * (r * narrow) <= n * wide;
    CancelLess(n, r * narrow, wide);
    MulMonotone(1, n, wide);
    DivUnique(m, n, r, m % n);
    if narrow == wide && wide > 0 {
      CancelLess(wide, m, n);
      CancelLess(wide, n, m);
      DivUnique(m, n, 1, 0);
    }
    if r == 0 {
      assert false;
    }
  }

  lemma CancelLess(n: nat, x: nat, y: nat)
    requires n > 0 && n * x <= n * y
    ensures x <= y
  {
    MulMonotone(y + 1, x, n);
    assert (y + 1) * n == y * n + n;
  }

  // ---------- main results ----------

  predicate Divides(m: nat, n: nat)
    requires m > 0 && n > 0
  {
    if n < m then m % n == 0 else n % m == 0
  }

  /** A cast between element counts of which one divides the other conserves the bits. */
  lemma BitcastConserves(src: seq<nat>, srcBits: nat, dstNum: nat, dstBits: nat, little: bool)
    requires src != [] && dstNum > 0 && AllBelow(src, Pow2(srcBits)) && |src| * srcBits == dstNum * dstBits
    requires Divides(|src|, dstNum)
    ensures var dst := Bitcast(src, srcBits, dstNum, dstBits, little);
      && |dst| == dstNum && AllBelow(dst, Pow2(dstBits))
      && Value(dst, Pow2(dstBits), little) == Value(src, Pow2(srcBits), little)
  {
    if dstNum < |src| {
      var r := |src| / dstNum;
      RatioFits(|src|, dstNum);
      WideIsGroup(|src|, srcBits, dstNum, dstBits, r);
      PowerOfTwo(srcBits, r);
      assert src[..|src|] == src;
      MergedValue(src, dstNum, r, Pow2(srcBits), little);
    } else {
      var r := dstNum / |src|;
      RatioFits(dstNum, |src|);
      WideIsGroup(dstNum, dstBits, |src|, srcBits, r);
      PowerOfTwo(dstBits, r);
      SplitValue(src, r, Pow2(dstBits), little);
    }
  }

  lemma WideIsGroup(m: nat, narrow: nat, n: nat, wide: nat, r: nat)
    requires n > 0 && m == n * r && m * narrow == n * wide
    ensures wide == r * narrow
  {
    Associate(n, r, narrow);
    CancelLess(n, wide, r * narrow);
    CancelLess(n, r * narrow, wide);
  }

  /** Casting there and back is the identity. */
  lemma BitcastRoundTrip(src: seq<nat>, srcBits: nat, dstNum: nat, dstBits: nat, little: bool)
    requires src != [] && dstNum > 0 && AllBelow(src, Pow2(srcBits)) && |src| * srcBits == dstNum * dstBits
    requires Divides(|src|, dstNum)
    ensures var dst := Bitcast(src, srcBits, dstNum, dstBits, little);
      dst != [] && Bitcast(dst, dstBits, |src|, srcBits, little) == src
  {
    var dst := Bitcast(src, srcBits, dstNum, dstBits, little);
    BitcastConserves(src, srcBits, dstNum, dstBits, little);
    BitcastConserves(dst, dstBits, |src|, srcBits, little);
    ValueIsInjective(Bitcast(dst, dstBits, |src|, srcBits, little), src, Pow2(srcBits), little);
  }

  // ---------- where the counts do not divide ----------

  function Zeros(n: nat): (z: seq<nat>)
    ensures |z| == n && forall i | 0 <= i < n :: z[i] == 0
  {
    seq(n, _ => 0)
  }

  /** Elements past the last whole group are dropped. */
  lemma LastElementIsLost(n: nat, srcBits: nat, dstNum: nat, dstBits: nat, little: bool)
    requires 0 < dstNum < n && srcBits > 0 && n % dstNum != 0
    ensures var p, q := Zeros(n), Zeros(n - 1) + [1];
      && AllBelow(p, Pow2(srcBits)) && AllBelow(q, Pow2(srcBits))
      && Bitcast(p, srcBits, dstNum, dstBits, little) == Bitcast(q, srcBits, dstNum, dstBits, little)
      && Value(p, Pow2(srcBits), little) != Value(q, Pow2(srcBits), little)
  {
    var p, q := Zeros(n), Zeros(n - 1) + [1];
    RatioFits(n, dstNum);
    assert p[..dstNum * (n / dstNum)] == q[..dstNum * (n / dstNum)];
    assert Pow2(srcBits) == 2 * Pow2(srcBits - 1);
    assert p[n - 1] != q[n - 1];
    if Value(p, Pow2(srcBits), little) == Value(q, Pow2(srcBits), little) {
      ValueIsInjective(p, q, Pow2(srcBits), little);
    }
  }

  function Full(n: nat, b: nat): (f: seq<nat>)
    requires b > 0
    ensures |f| == n && AllBelow(f, b)
  {
    seq(n, _ => b - 1)
  }

  lemma {:induction false} FullValue(n: nat, b: nat, little: bool)
    requires b > 0
    ensures Value(Full(n, b), b, little) == Power(b, n) - 1
    decreases n
  {
    if n > 0 {
      FullValue(n - 1, b, little);
      assert Full(n, b) == Full(n - 1, b) + [b - 1];
      ValueSnoc(Full(n - 1, b), b - 1, b, little);
      LessOne(Power(b, n - 1), b);
    }
  }

  lemma LessOne(p: int, b: int)
    ensures p - 1 + (b - 1) * p == p * b - 1 && (p - 1) * b + (b - 1) == p * b - 1
  {
  }

  lemma {:induction false} SplitShape(src: seq<nat>, r: nat, b: nat, little: bool)
    requires b > 0
    ensures |Split(src, r, b, little)| == |src| * r && AllBelow(Split(src, r, b, little), b)
    decreases |src|
  {
    TimesSum(|src| - 1, 1, r);
    if src != [] {
      SplitShape(src[..|src| - 1], r, b, little);
    }
  }

  /** Too few elements come out to hold all bits. */
  lemma HighBitsAreLost(n: nat, srcBits: nat, dstNum: nat, dstBits: nat, little: bool)
    requires 0 < n < dstNum && dstBits > 0 && dstNum % n != 0 && n * srcBits == dstNum * dstBits
    ensures var src := Full(n, Pow2(srcBits));
      Value(Bitcast(src, srcBits, dstNum, dstBits, little), Pow2(dstBits), little)
        < Value(src, Pow2(srcBits), little)
  {
    var src, r, b := Full(n, Pow2(srcBits)), dstNum / n, Pow2(dstBits);
    var dst := Split(src, r, b, little);
    RatioFits(dstNum, n);
    SplitShape(src, r, b, little);
    ValueBound(dst, b, little);
    FullValue(n, Pow2(srcBits), little);
    PowerOfTwo(srcBits, n);
    PowerOfTwo(dstBits, n * r);
    FewerBits(n * r, dstNum, dstBits);
  }

  lemma FewerBits(m: nat, n: nat, width: nat)
    requires m < n && width > 0
    ensures Pow2(m * width) <= Pow2(n * width) - 1
  {
    MulMonotone(m + 1, n, width);
    TimesSum(m, 1, width);
    PowMonotone(m * width, n * width - 1);
  }

  ghost predicate Conserves(src: seq<nat>, srcBits: nat, dstNum: nat, dstBits: nat, little: bool)
    requires src != [] && dstNum > 0
  {
    Value(Bitcast(src, srcBits, dstNum, dstBits, little), Pow2(dstBits), little) == Value(src, Pow2(srcBits), little)
  }

  ghost predicate AlwaysConserves(n: nat, srcBits: nat, dstNum: nat, dstBits: nat, little: bool)
    requires n > 0 && dstNum > 0
  {
    forall src | |src| == n && AllBelow(src, Pow2(srcBits)) :: Conserves(src, srcBits, dstNum, dstBits, little)
  }

  lemma MergingLoses(n: nat, srcBits: nat, dstNum: nat, dstBits: nat, little: bool)
    requires 0 < dstNum < n && srcBits > 0 && n % dstNum != 0
    ensures !AlwaysConserves(n, srcBits, dstNum, dstBits, little)
  {
    LastElementIsLost(n, srcBits, dstNum, dstBits, little);
    var p, q := Zeros(n), Zeros(n - 1) + [1];
    assert !Conserves(p, srcBits, dstNum, dstBits, little) || !Conserves(q, srcBits, dstNum, dstBits, little);
  }

  lemma SplittingLoses(n: nat, srcBits: nat, dstNum: nat, dstBits: nat, little: bool)
    requires 0 < n < dstNum && dstBits > 0 && dstNum % n != 0 && n * srcBits == dstNum * dstBits
    ensures !AlwaysConserves(n, srcBits, dstNum, dstBits, little)
  {
    HighBitsAreLost(n, srcBits, dstNum, dstBits, little);
    assert !Conserves(Full(n, Pow2(srcBits)), srcBits, dstNum, dstBits, little);
  }

  /** The bits of every vector are conserved exactly if one element count divides the other. */
  lemma ConservesIff(n: nat, srcBits: nat, dstNum: nat, dstBits: nat, little: bool)
    requires n > 0 && dstNum > 0 && srcBits > 0 && dstBits > 0 && n * srcBits == dstNum * dstBits
    ensures AlwaysConserves(n, srcBits, dstNum, dstBits, little) <==> Divides(n, dstNum)
  {
    if Divides(n, dstNum) {
      forall src | |src| == n && AllBelow(src, Pow2(srcBits))
        ensures Conserves(src, srcBits, dstNum, dstBits, little)
      {
        BitcastConserves(src, srcBits, dstNum, dstBits, little);
      }
    } else if dstNum < n {
      MergingLoses(n, srcBits, dstNum, dstBits, little);
    } else {
      SplittingLoses(n, srcBits, dstNum, dstBits, little);
    }
  }
}
