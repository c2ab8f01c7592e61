/** Addition with an axiom that excludes overflow. */
module OverflowAxiom {
  import opened Bits

  /** The sum, and the axiom attached to it. */
  datatype Sum = Sum(res: Bits, axiom: bool)

  function Max(a: nat, b: nat): nat {
    if a < b then b else a
  }

  function Plus(a: Bits, b: Bits): Bits
    requires a.width == b.width
  {
    Bits(a.width, (a.val + b.val) % Pow2(a.width))
  }

  /** Signed operands are compared with zero; unsigned ones are added with one more bit. */
  function AddNoOverflow(lhv: Bits, rhv: Bits, isSigned: bool): Sum
    requires Fits(lhv) && Fits(rhv)
  {
    var sz := Max(lhv.width, rhv.width);
    var x, y := AdaptTo(lhv, sz, isSigned), AdaptTo(rhv, sz, isSigned);
    if isSigned then
      var res := Plus(x, y);
      var a, b, r := SignedVal(x), SignedVal(y), SignedVal(res);
      Sum(res, (a > 0 && b > 0 ==> r > 0) && (a < 0 && b < 0 ==> r < 0))
    else
      var res := Plus(Zext(x, sz + 1), Zext(y, sz + 1));
      Sum(Extract(res, sz - 1, 0), Extract(res, sz, sz).val == 0)
  }

  /** How the operands and the result are read. */
  function Reading(b: Bits, isSigned: bool): int
    requires b.width > 0
  {
    if isSigned then SignedVal(b) else b.val
  }

  predicate Representable(n: int, width: nat, isSigned: bool)
    requires width > 0
  {
    if isSigned then 0 - Pow2(width - 1) <= n < Pow2(width - 1) else 0 <= n < Pow2(width)
  }

  lemma AdaptKeepsReading(b: Bits, width: nat, isSigned: bool)
    requires Fits(b) && b.width <= width
    ensures Fits(AdaptTo(b, width, isSigned)) && Reading(AdaptTo(b, width, isSigned), isSigned) == Reading(b, isSigned)
  {
    PowMonotone(b.width, width);
    if b.width < width && isSigned {
      SextFits(b, width);
      SextKeepsSignedVal(b, width);
    }
  }

  /** The axiom holds exactly if the sum of the operands fits the wider width, and then the
    * result is that sum. */
  lemma AxiomIsExact(lhv: Bits, rhv: Bits, isSigned: bool)
    requires Fits(lhv) && Fits(rhv)
    ensures var n := Reading(lhv, isSigned) + Reading(rhv, isSigned);
      var sum := AddNoOverflow(lhv, rhv, isSigned);
      && sum.res.width == Max(lhv.width, rhv.width)
      && (sum.axiom <==> Representable(n, sum.res.width, isSigned))
      && (sum.axiom ==> Reading(sum.res, isSigned) == n)
  {
    var sz := Max(lhv.width, rhv.width);
    AdaptKeepsReading(lhv, sz, isSigned);
    AdaptKeepsReading(rhv, sz, isSigned);
    if isSigned {
      SignedIsExact(AdaptTo(lhv, sz, true), AdaptTo(rhv, sz, true));
    } else {
      UnsignedIsExact(AdaptTo(lhv, sz, false), AdaptTo(rhv, sz, false));
    }
  }

  lemma SignedIsExact(a: Bits, b: Bits)
    requires Fits(a) && Fits(b) && a.width == b.width
    ensures var x, y, r := SignedVal(a), SignedVal(b), SignedVal(Plus(a, b));
      var axiom := (x > 0 && y > 0 ==> r > 0) && (x < 0 && y < 0 ==> r < 0);
      (axiom <==> Representable(x + y, a.width, true)) && (axiom ==> r == x + y)
  {
    var p := Pow2(a.width);
    var n := a.val + b.val;
    assert p == 2 * Pow2(a.width - 1);
    if n >= p {
      ModDrops(1, p, n - p);
      SmallMod(n - p, p);
    } else {
      SmallMod(n, p);
    }
  }

  lemma UnsignedIsExact(a: Bits, b: Bits)
    requires Fits(a) && Fits(b) && a.width == b.width
    ensures var sz := a.width;
      var res := Plus(Zext(a, sz + 1), Zext(b, sz + 1));
      && (Extract(res, sz, sz).val == 0 <==> a.val + b.val < Pow2(sz))
      && (a.val + b.val < Pow2(sz) ==> Extract(res, sz - 1, 0).val == a.val + b.val)
  {
    var sz := a.width;
    var n, p := a.val + b.val, Pow2(sz);
    assert Pow2(sz + 1) == 2 * p && Pow2(1) == 2 * Pow2(0) && Pow2(0) == 1;
    SmallMod(n, 2 * p);
    if n < p {
      DivUnique(n, p, 0, n);
    } else {
      DivUnique(n, p, 1, n - p);
    }
  }
}
