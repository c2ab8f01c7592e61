/** Bit vectors as a width and an unsigned value. */
module Bits {

  function Pow2(n: nat): (p: nat)
    ensures p > 0
  {
    if n == 0 then 1 else 2 * Pow2(n - 1)
  }

  datatype Bits = Bits(width: nat, val: nat)

  predicate Fits(b: Bits) {
    b.width > 0 && b.val < Pow2(b.width)
  }

  /** The value in two's complement. */
  function SignedVal(b: Bits): int
    requires b.width > 0
  {
    if b.val < Pow2(b.width - 1) then b.val else b.val - Pow2(b.width)
  }

  function Extract(b: Bits, high: nat, low: nat): Bits
    requires low <= high < b.width
  {
    Bits(high - low + 1, b.val / Pow2(low) % Pow2(high - low + 1))
  }

  function Sext(b: Bits, width: nat): (r: Bits)
    requires 0 < b.width <= width
    ensures r.width == width
  {
    var top := if b.val < Pow2(b.width - 1) then 0 else PowDiff(width, b.width);
    Bits(width, b.val + top)
  }

  function PowDiff(m: nat, n: nat): (d: nat)
    requires n <= m
    ensures d == Pow2(m) - Pow2(n)
  {
    PowMonotone(n, m);
    Pow2(m) - Pow2(n)
  }

  function Zext(b: Bits, width: nat): Bits
    requires b.width <= width
  {
    Bits(width, b.val)
  }

  function Concat(high: Bits, low: Bits): Bits {
    Bits(high.width + low.width, high.val * Pow2(low.width) + low.val)
  }

  /** Extends as told, or keeps the low bits. */
  function AdaptTo(b: Bits, width: nat, signed: bool): (r: Bits)
    requires Fits(b) && width > 0
    ensures r.width == width
  {
    if width > b.width then
      if signed then Sext(b, width) else Zext(b, width)
    else if width < b.width then Extract(b, width - 1, 0)
    else b
  }

  // ---------- powers of two ----------

  lemma {:induction false} PowMonotone(m: nat, n: nat)
    requires m <= n
    ensures Pow2(m) <= Pow2(n)
    decreases n
  {
    if m < n {
      PowMonotone(m, n - 1);
    }
  }

  lemma {:induction false} PowAdds(m: nat, n: nat)
    ensures Pow2(m + n) == Pow2(m) * Pow2(n)
    decreases n
  {
    if n > 0 {
      PowAdds(m, n - 1);
      assert Pow2(m + n) == 2 * Pow2(m + (n - 1));
      Reassociate(Pow2(m), Pow2(n - 1));
    }
  }

  lemma Reassociate(x: int, y: int)
    ensures 2 * (x * y) == x * (2 * y)
  {
  }

  // ---------- division ----------

  lemma DivMod(n: int, d: int)
    requires d > 0
    ensures n == (n / d) * d + n % d
  {
  }

  lemma DivUnique(n: int, d: int, q: int, r: int)
    requires d > 0 && n == q * d + r && 0 <= r < d
    ensures n / d == q && n % d == r
  {
    var e := n / d - q;
    assert n == (n / d) * d + n % d;
    assert e * d == (n / d) * d - q * d;
    MulSign(e, d);
  }

  lemma MulSign(e: int, d: int)
    requires d > 0
    ensures e >= 1 ==> e * d >= d
    ensures e <= -1 ==> e * d <= -d
  {
    MulMonotone(1, e, d);
    MulMonotone(e, -1, d);
  }

  lemma MulMonotone(a: int, b: int, d: int)
    requires d >= 0
    ensures a <= b ==> a * d <= b * d
  {
    if a <= b {
      assert (b - a) * d == b * d - a * d;
      assert (b - a) * d >= 0;
    }
  }

  /** Dropping a multiple of the modulus. */
  lemma ModDrops(k: int, d: int, r: int)
    requires d > 0
    ensures (k * d + r) % d == r % d
  {
    var q := r / d;
    assert k * d + r == (k + q) * d + r % d by {
      assert (k + q) * d == k * d + q * d;
    }
    DivUnique(k * d + r, d, k + q, r % d);
  }

  /** A modulus that is a multiple of another does not disturb it. */
  lemma ModOfMod(n: int, d: int, e: int)
    requires d > 0 && e > 0
    ensures d * e > 0 && n % (d * e) % d == n % d
  {
    MulSign(e, d);
    var q := n / (d * e);
    var r := n % (d * e);
    assert n == q * (d * e) + r;
    assert q * (d * e) == (q * e) * d;
    ModDrops(q * e, d, r);
  }

  /** The low m + n bits are n higher bits above the low m bits. */
  lemma LowBitsSplit(v: nat, m: nat, n: nat)
    ensures v % Pow2(m + n) == v / Pow2(m) % Pow2(n) * Pow2(m) + v % Pow2(m)
  {
    PowAdds(m, n);
    SplitMod(v, Pow2(m), Pow2(n));
  }

  lemma SplitMod(v: nat, d: nat, e: nat)
    requires d > 0 && e > 0
    ensures d * e > 0 && v % (d * e) == v / d % e * d + v % d
  {
    var h, l := v / d, v % d;
    var q, r := h / e, h % e;
    MulSign(e, d);
    assert v == h * d + l;
    assert h * d == (q * e + r) * d;
    Distribute(q, e, r, d);
    DigitBound(r, e, l, d);
    DivUnique(v, d * e, q, r * d + l);
  }

  lemma Distribute(q: int, e: int, r: int, d: int)
    ensures (q * e + r) * d == q * (d * e) + r * d
  {
  }

  /** A digit above lower digits stays within the product of their ranges. */
  lemma DigitBound(r: nat, e: nat, l: nat, d: nat)
    requires r < e && l < d
    ensures r * d + l < d * e
  {
    MulMonotone(r, e - 1, d);
    assert (e - 1) * d == d * e - d;
  }

  /** Low bits of low bits. */
  lemma LowBitsOfLow(v: int, m: nat, n: nat)
    requires n <= m
    ensures v % Pow2(m) % Pow2(n) == v % Pow2(n)
  {
    PowAdds(n, m - n);
    ModOfMod(v, Pow2(n), Pow2(m - n));
  }

  lemma SmallMod(v: nat, m: nat)
    requires v < m
    ensures v % m == v
  {
  }

  // ---------- what the operations keep ----------

  lemma ExtractFits(b: Bits, high: nat, low: nat)
    requires low <= high < b.width
    ensures Fits(Extract(b, high, low))
  {
  }

  lemma ExtractAll(b: Bits)
    requires Fits(b)
    ensures Extract(b, b.width - 1, 0) == b
  {
    assert Pow2(0) == 1;
    assert b.val / 1 == b.val;
    SmallMod(b.val, Pow2(b.width));
  }

  lemma SextFits(b: Bits, width: nat)
    requires Fits(b) && b.width <= width
    ensures Fits(Sext(b, width))
  {
    PowMonotone(b.width, width);
  }

  /** Sign extension keeps the signed value. */
  lemma SextKeepsSignedVal(b: Bits, width: nat)
    requires Fits(b) && b.width <= width
    ensures SignedVal(Sext(b, width)) == SignedVal(b)
  {
    PowMonotone(b.width - 1, width - 1);
    PowMonotone(b.width, width);
    assert Pow2(width) == 2 * Pow2(width - 1);
    assert Pow2(b.width) == 2 * Pow2(b.width - 1);
  }

  lemma ConcatFits(high: Bits, low: Bits)
    requires Fits(high) && Fits(low)
    ensures Fits(Concat(high, low))
  {
    PowAdds(high.width, low.width);
    DigitBound(high.val, Pow2(high.width), low.val, Pow2(low.width));
    Commute(Pow2(low.width), Pow2(high.width));
  }

  lemma Commute(x: int, y: int)
    ensures x * y == y * x
  {
  }
}
