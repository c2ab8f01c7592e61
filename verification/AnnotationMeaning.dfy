/** What the annotation executor's values mean: typing, and signed integers and truth values
  * where nothing overflows. */
module AnnotationMeaning {
  import opened Bits
  import opened AnnotationTerms

  // ---------- typing ----------

  function WidthOf(ty: Type): (w: nat)
    ensures w > 0
  {
    if ty.Void? then LITERAL_WIDTH else ty.width
  }

  predicate WellWidthed(v: Typed) {
    v.val.width == WidthOf(v.ty)
  }

  function TypeOf(t: Term): Type {
    match t
    case Program(v) => Int(v.width)
    case Literal(_) => Void
    case Unary(op, e) => if op.NOT? then Int(1) else TypeOf(e)
    case Binary(_, l, r) => MergeTypes(TypeOf(l), TypeOf(r))
    case Ternary(_, p, q) => MergeTypes(TypeOf(p), TypeOf(q))
    case Axiom(l, _) => TypeOf(l)
    case _ => Int(1)
  }

  /** Nothing in the term is missing from the executor: no shift, no comparison of two
    * literals, and implications only between single bits. */
  predicate Supported(t: Term) {
    match t
    case Unary(_, e) => Supported(e)
    case Sign(e) => Supported(e)
    case Binary(op, l, r) =>
      && Supported(l) && Supported(r)
      && !op.SHL? && !op.ASHR? && !op.LSHR?
      && (op.IMPLIES? ==> MergeTypes(TypeOf(l), TypeOf(r)) == Int(1))
    case Cmp(op, l, r) =>
      && Supported(l) && Supported(r)
      && (op.TRUE? || op.FALSE? || MergeTypes(TypeOf(l), TypeOf(r)) != Void)
    case Ternary(c, p, q) => Supported(c) && Supported(p) && Supported(q)
    case Axiom(l, r) => Supported(l) && Supported(r)
    case _ => true
  }

  lemma AdjustedWidth(v: Typed, other: Type)
    requires WellWidthed(v)
    ensures AdjustToType(v, MergeTypes(v.ty, other)).width == WidthOf(MergeTypes(v.ty, other))
    ensures AdjustToType(v, MergeTypes(other, v.ty)).width == WidthOf(MergeTypes(other, v.ty))
  {
  }

  predicate IsDivision(op: BinaryOp) {
    op.DIV? || op.REM?
  }

  /** The divisor at the type of the division; cutting it can make it zero. */
  function Divisor(l: Typed, r: Typed): Value {
    AdjustToType(r, MergeTypes(l.ty, r.ty))
  }

  /** Evaluation comes to a division by zero, before it comes to a violated axiom. */
  predicate DividesByZero(t: Term) {
    match t
    case Unary(_, e) => DividesByZero(e)
    case Sign(e) => DividesByZero(e)
    case Binary(op, l, r) =>
      DividesByZero(l) ||
      (Run(l).Done? &&
       (DividesByZero(r) || (Run(r).Done? && IsDivision(op) && Divisor(Run(l).value, Run(r).value).val == 0)))
    case Cmp(_, l, r) => DividesByZero(l) || (Run(l).Done? && DividesByZero(r))
    case Ternary(c, p, q) =>
      DividesByZero(c) || (Run(c).Done? && (DividesByZero(p) || (Run(p).Done? && DividesByZero(q))))
    case Axiom(l, r) => DividesByZero(l) || (Run(l).Done? && DividesByZero(r))
    case _ => false
  }

  /** Widths never clash: a supported term has a value of its type, unless an axiom in it is
    * violated; it fails exactly if it comes to a division by zero. */
  lemma {:induction false} SupportedRuns(t: Term)
    requires Supported(t)
    ensures Run(t).Unsupported? <==> DividesByZero(t)
    ensures Run(t).Done? ==> Run(t).value.ty == TypeOf(t) && WellWidthed(Run(t).value)
  {
    match t
    case Unary(_, e) => SupportedRuns(e);
    case Sign(e) => SupportedRuns(e);
    case Binary(op, l, r) =>
      SupportedRuns(l);
      SupportedRuns(r);
      if Run(l).Done? && Run(r).Done? {
        BinaryRuns(op, Run(l).value, Run(r).value);
      }
    case Cmp(op, l, r) =>
      SupportedRuns(l);
      SupportedRuns(r);
      if Run(l).Done? && Run(r).Done? {
        CmpRuns(op, Run(l).value, Run(r).value);
      }
    case Ternary(c, p, q) =>
      SupportedRuns(c);
      SupportedRuns(p);
      SupportedRuns(q);
      if Run(p).Done? && Run(q).Done? {
        AdjustedWidth(Run(p).value, TypeOf(q));
        AdjustedWidth(Run(q).value, TypeOf(p));
      }
    case Axiom(l, r) =>
      SupportedRuns(l);
      SupportedRuns(r);
    case _ =>
  }

  /** At the merged type widths agree, so an operation fails only in dividing by zero. */
  lemma BinaryRuns(op: BinaryOp, l: Typed, r: Typed)
    requires WellWidthed(l) && WellWidthed(r)
    requires !op.SHL? && !op.ASHR? && !op.LSHR?
    requires op.IMPLIES? ==> MergeTypes(l.ty, r.ty) == Int(1)
    ensures var v := ApplyBinary(op, l, r);
      if IsDivision(op) && Divisor(l, r).val == 0 then v.Unsupported?
      else v.Done? && v.value.ty == MergeTypes(l.ty, r.ty) && WellWidthed(v.value)
  {
    AdjustedWidth(l, r.ty);
    AdjustedWidth(r, l.ty);
  }

  lemma CmpRuns(op: CmpOp, l: Typed, r: Typed)
    requires WellWidthed(l) && WellWidthed(r)
    requires op.TRUE? || op.FALSE? || MergeTypes(l.ty, r.ty) != Void
    ensures var v := ApplyCmp(op, l, r);
      v.Done? && v.value.ty == Int(1) && WellWidthed(v.value)
  {
    AdjustedWidth(l, r.ty);
    AdjustedWidth(r, l.ty);
  }

  /** A false premise breaks the typing, exactly if it is not a single bit. */
  lemma ImpliesIsWellWidthedIff(l: Typed, r: Typed)
    requires WellWidthed(l) && WellWidthed(r)
    ensures var ty := MergeTypes(l.ty, r.ty);
      var v := ApplyBinary(IMPLIES, l, r);
      v.Done? && (WellWidthed(v.value) <==> WidthOf(ty) == 1 || AdjustToType(l, ty).val != 0)
  {
    AdjustedWidth(l, r.ty);
    AdjustedWidth(r, l.ty);
  }

  /** Two literals cannot be compared. */
  lemma LiteralsCannotBeCompared(op: CmpOp, m: int, n: int)
    ensures Run(Cmp(op, Literal(m), Literal(n))).Unsupported? <==> !op.TRUE? && !op.FALSE?
  {
  }

  // ---------- signed values ----------

  predicate InRange(n: int, width: nat)
    requires width > 0
  {
    0 - Pow2(width - 1) <= n < Pow2(width - 1)
  }

  lemma SignedInRange(b: Value)
    ensures InRange(SignedVal(b), b.width)
  {
  }

  /** A number that fits is the signed value of its bits, and only then. */
  lemma ToBitsKeepsIff(width: nat, n: int)
    requires width > 0
    ensures SignedVal(ToBits(width, n)) == n <==> InRange(n, width)
  {
    var p := Pow2(width);
    if 0 <= n < p {
      SmallMod(n, p);
    } else if -p <= n < 0 {
      ModDrops(1, p, n);
      SmallMod(n + p, p);
    }
    SignedInRange(ToBits(width, n));
  }

  lemma BitsOfSigned(b: Value)
    ensures ToBits(b.width, SignedVal(b)) == b
  {
    var p := Pow2(b.width);
    SmallMod(b.val, p);
    if SignedVal(b) < 0 {
      ModDrops(-1, p, b.val);
    }
  }

  /** Bits depend on the number only up to multiples of 2^width. */
  lemma ToBitsDrops(width: nat, k: int, n: int)
    requires width > 0
    ensures ToBits(width, n + k * Pow2(width)) == ToBits(width, n)
  {
    ModDrops(k, Pow2(width), n);
  }

  /** Bringing a value to another width keeps its signed value exactly if it fits. */
  lemma SextOrTruncMeans(v: Value, width: nat)
    requires width > 0
    ensures SextOrTrunc(v, width) == ToBits(width, SignedVal(v))
    ensures SignedVal(SextOrTrunc(v, width)) == SignedVal(v) <==> InRange(SignedVal(v), width)
  {
    if width > v.width {
      SextKeepsSignedVal(v, width);
      BitsOfSigned(SextOrTrunc(v, width));
    } else if width < v.width {
      TruncMeans(v, width);
    } else {
      BitsOfSigned(v);
    }
    ToBitsKeepsIff(width, SignedVal(v));
  }

  lemma TruncMeans(v: Value, width: nat)
    requires 0 < width < v.width
    ensures SextOrTrunc(v, width) == ToBits(width, SignedVal(v))
  {
    var p: int := Pow2(v.width - width);
    assert Pow2(0) == 1;
    if SignedVal(v) < 0 {
      PowAdds(width, v.width - width);
      Commute(Pow2(width), p);
      Negated(p, Pow2(width));
      ToBitsDrops(width, 0 - p, v.val);
    }
  }

  lemma Negated(x: int, y: int)
    ensures (0 - x) * y == -(x * y)
  {
  }

  /** Modular arithmetic on bits is modular arithmetic on signed values. */
  lemma ArithmeticMeans(l: Value, r: Value)
    requires l.width == r.width
    ensures ToBits(l.width, l.val + r.val) == ToBits(l.width, SignedVal(l) + SignedVal(r))
    ensures ToBits(l.width, l.val - r.val) == ToBits(l.width, SignedVal(l) - SignedVal(r))
    ensures ToBits(l.width, l.val * r.val) == ToBits(l.width, SignedVal(l) * SignedVal(r))
  {
    SumMeans(l, r);
    ProductMeans(l, r);
  }

  lemma SumMeans(l: Value, r: Value)
    requires l.width == r.width
    ensures ToBits(l.width, l.val + r.val) == ToBits(l.width, SignedVal(l) + SignedVal(r))
    ensures ToBits(l.width, l.val - r.val) == ToBits(l.width, SignedVal(l) - SignedVal(r))
  {
    var i, j := Sign01(l), Sign01(r);
    ToBitsDrops(l.width, i + j, SignedVal(l) + SignedVal(r));
    ToBitsDrops(l.width, i - j, SignedVal(l) - SignedVal(r));
    Sums(i, j, Pow2(l.width));
    BorrowedValue(l);
    BorrowedValue(r);
  }

  lemma ProductMeans(l: Value, r: Value)
    requires l.width == r.width
    ensures ToBits(l.width, l.val * r.val) == ToBits(l.width, SignedVal(l) * SignedVal(r))
  {
    var i, j, p := Sign01(l), Sign01(r), Pow2(l.width);
    var a, b := SignedVal(l), SignedVal(r);
    BorrowedValue(l);
    BorrowedValue(r);
    ToBitsDrops(l.width, a * j + b * i + i * j * p, a * b);
    Products(a, i, b, j, p);
  }

  lemma NegMeans(v: Value)
    ensures ToBits(v.width, Pow2(v.width) - v.val) == ToBits(v.width, -SignedVal(v))
  {
    BorrowedValue(v);
    ToBitsDrops(v.width, 1 - Sign01(v), -SignedVal(v));
    Sums(Sign01(v), 0, Pow2(v.width));
  }

  lemma BorrowedValue(v: Value)
    ensures v.val == SignedVal(v) + Sign01(v) * Pow2(v.width)
  {
  }

  function Sign01(b: Value): int {
    if SignedVal(b) < 0 then 1 else 0
  }

  lemma Sums(i: int, j: int, p: int)
    ensures (i + j) * p == i * p + j * p && (i - j) * p == i * p - j * p && (1 - i) * p == p - i * p
  {
  }

  lemma Products(a: int, i: int, b: int, j: int, p: int)
    ensures (a + i * p) * (b + j * p) == a * b + (a * j + b * i + i * j * p) * p
  {
  }

  // ---------- meaning without overflow ----------

  predicate IsArithOp(op: BinaryOp) {
    op.ADD? || op.SUB? || op.MUL? || op.DIV? || op.REM?
  }

  predicate IsArith(t: Term) {
    match t
    case Program(_) => true
    case Literal(_) => true
    case Unary(op, e) => op.NEG? && IsArith(e)
    case Binary(op, l, r) => IsArithOp(op) && IsArith(l) && IsArith(r)
    case _ => false
  }

  /** The integer that an arithmetic term stands for. */
  function Math(t: Term): int
    requires IsArith(t)
  {
    match t
    case Program(v) => SignedVal(v)
    case Literal(n) => n
    case Unary(_, e) => -Math(e)
    case Binary(op, l, r) => Combined(op, Math(l), Math(r))
  }

  /** Division truncates; by zero it is never asked for. */
  function Combined(op: BinaryOp, m: int, n: int): int {
    match op
    case ADD => m + n
    case SUB => m - n
    case MUL => m * n
    case DIV => if n == 0 then 0 else TruncDiv(m, n)
    case _ => if n == 0 then m else m - TruncDiv(m, n) * n
  }

  /** Every literal fits the width it is brought to, every result the width it is computed in,
    * and no divisor is zero. */
  predicate NoOverflow(t: Term)
    requires IsArith(t)
  {
    && InRange(Math(t), WidthOf(TypeOf(t)))
    && match t
       case Unary(_, e) => NoOverflow(e)
       case Binary(op, l, r) =>
         && NoOverflow(l) && NoOverflow(r) && (op.DIV? || op.REM? ==> Math(r) != 0)
         && InRange(Math(l), WidthOf(TypeOf(t))) && InRange(Math(r), WidthOf(TypeOf(t)))
       case _ => true
  }

  lemma AdjustMeans(v: Typed, ty: Type, n: int)
    requires WellWidthed(v) && v.val == ToBits(v.val.width, n) && InRange(n, v.val.width)
    requires InRange(n, WidthOf(ty)) && (ty.Void? ==> v.ty.Void?)
    ensures AdjustToType(v, ty) == ToBits(WidthOf(ty), n)
  {
    ToBitsKeepsIff(v.val.width, n);
    SextOrTruncMeans(v.val, WidthOf(ty));
  }

  /** Without overflow, the value on the stack is the integer that the term stands for. */
  lemma {:induction false} ArithmeticIsExact(t: Term)
    requires IsArith(t) && NoOverflow(t)
    ensures Run(t) == Done(Typed(ToBits(WidthOf(TypeOf(t)), Math(t)), TypeOf(t)))
    ensures SignedVal(ToBits(WidthOf(TypeOf(t)), Math(t))) == Math(t)
    decreases t, 2
  {
    MathIsKept(t);
    match t
    case Program(v) => BitsOfSigned(v);
    case Literal(_) =>
    case Unary(_, e) => NegationIsExact(t);
    case Binary(op, l, r) => BinaryIsExact(t);
  }

  lemma MathIsKept(t: Term)
    requires IsArith(t) && NoOverflow(t)
    ensures SignedVal(ToBits(WidthOf(TypeOf(t)), Math(t))) == Math(t)
  {
    ToBitsKeepsIff(WidthOf(TypeOf(t)), Math(t));
  }

  lemma {:induction false} NegationIsExact(t: Term)
    requires IsArith(t) && NoOverflow(t) && t.Unary?
    ensures Run(t) == Done(Typed(ToBits(WidthOf(TypeOf(t)), Math(t)), TypeOf(t)))
    decreases t, 1
  {
    ArithmeticIsExact(t.rhv);
    NegationMeans(WidthOf(TypeOf(t.rhv)), Math(t.rhv), TypeOf(t.rhv));
  }

  lemma {:induction false} BinaryIsExact(t: Term)
    requires IsArith(t) && NoOverflow(t) && t.Binary?
    ensures Run(t) == Done(Typed(ToBits(WidthOf(TypeOf(t)), Math(t)), TypeOf(t)))
    decreases t, 1
  {
    var l, r := t.lhv, t.rhv;
    OperandsMean(t);
    OperationMeans(t.bop, Run(l).value, Run(r).value, Math(l), Math(r));
    assert Run(t) == ApplyBinary(t.bop, Run(l).value, Run(r).value);
  }

  lemma OperationMeans(op: BinaryOp, l: Typed, r: Typed, m: int, n: int)
    requires IsArithOp(op) && (op.DIV? || op.REM? ==> n != 0)
    requires var ty := MergeTypes(l.ty, r.ty);
      && InRange(m, WidthOf(ty)) && InRange(n, WidthOf(ty))
      && AdjustToType(l, ty) == ToBits(WidthOf(ty), m) && AdjustToType(r, ty) == ToBits(WidthOf(ty), n)
    ensures var ty := MergeTypes(l.ty, r.ty);
      ApplyBinary(op, l, r) == Done(Typed(ToBits(WidthOf(ty), Combined(op, m, n)), ty))
  {
    BinaryMeans(op, WidthOf(MergeTypes(l.ty, r.ty)), m, n);
  }

  lemma NegationMeans(width: nat, n: int, ty: Type)
    requires width > 0 && InRange(n, width)
    ensures ApplyUnary(NEG, Typed(ToBits(width, n), ty)) == Typed(ToBits(width, -n), ty)
  {
    ToBitsKeepsIff(width, n);
    NegMeans(ToBits(width, n));
  }

  lemma BinaryMeans(op: BinaryOp, width: nat, m: int, n: int)
    requires width > 0 && InRange(m, width) && InRange(n, width)
    requires IsArithOp(op) && (op.DIV? || op.REM? ==> n != 0)
    ensures ExecuteBinary(op, ToBits(width, m), ToBits(width, n)) == Done(ToBits(width, Combined(op, m, n)))
  {
    ToBitsKeepsIff(width, m);
    ToBitsKeepsIff(width, n);
    ArithmeticMeans(ToBits(width, m), ToBits(width, n));
  }

  /** Both operands are brought to the merged width with their values. */
  lemma {:induction false} OperandsMean(t: Term)
    requires t.Binary? || t.Cmp?
    requires IsArith(t.lhv) && IsArith(t.rhv) && NoOverflow(t.lhv) && NoOverflow(t.rhv)
    requires var w := WidthOf(MergeTypes(TypeOf(t.lhv), TypeOf(t.rhv)));
      InRange(Math(t.lhv), w) && InRange(Math(t.rhv), w)
    ensures var l, r := t.lhv, t.rhv;
      var ty := MergeTypes(TypeOf(l), TypeOf(r));
      var a, b := ToBits(WidthOf(ty), Math(l)), ToBits(WidthOf(ty), Math(r));
      && Run(l).Done? && Run(l).value.ty == TypeOf(l) && AdjustToType(Run(l).value, ty) == a
      && Run(r).Done? && Run(r).value.ty == TypeOf(r) && AdjustToType(Run(r).value, ty) == b
      && SignedVal(a) == Math(l) && SignedVal(b) == Math(r)
    decreases t, 0
  {
    var l, r := t.lhv, t.rhv;
    var ty := MergeTypes(TypeOf(l), TypeOf(r));
    ArithmeticIsExact(l);
    ArithmeticIsExact(r);
    AdjustMeans(Run(l).value, ty, Math(l));
    AdjustMeans(Run(r).value, ty, Math(r));
    ToBitsKeepsIff(WidthOf(ty), Math(l));
    ToBitsKeepsIff(WidthOf(ty), Math(r));
  }

  /** Conditions: signed comparisons of arithmetic terms, not of two literals, and their
    * logical combinations. */
  predicate IsCondition(t: Term) {
    match t
    case BoolLiteral(_) => true
    case Cmp(op, l, r) =>
      && !op.UGT? && !op.UGE? && !op.ULT? && !op.ULE?
      && IsArith(l) && IsArith(r) && NoOverflow(l) && NoOverflow(r)
      && var ty := MergeTypes(TypeOf(l), TypeOf(r));
      && !ty.Void? && InRange(Math(l), ty.width) && InRange(Math(r), ty.width)
    case Unary(op, e) => op.NOT? && IsCondition(e)
    case Binary(op, l, r) => (op.LAND? || op.LOR? || op.IMPLIES?) && IsCondition(l) && IsCondition(r)
    case _ => false
  }

  predicate Compared(op: CmpOp, a: int, b: int) {
    match op
    case TRUE => true
    case FALSE => false
    case EQ => a == b
    case NEQ => a != b
    case GT => a > b
    case GE => a >= b
    case LT => a < b
    case _ => a <= b
  }

  predicate Holds(t: Term)
    requires IsCondition(t)
  {
    match t
    case BoolLiteral(b) => b
    case Cmp(op, l, r) =>
      Compared(op, Math(l), Math(r))
    case Unary(_, e) => !Holds(e)
    case Binary(op, l, r) =>
      if op.LAND? then Holds(l) && Holds(r)
      else if op.LOR? then Holds(l) || Holds(r)
      else Holds(l) ==> Holds(r)
  }

  /** A condition leaves one bit on the stack, set exactly if the condition holds: so an
    * assertion fails exactly if it does not. */
  lemma {:induction false} ConditionsMean(t: Term)
    requires IsCondition(t)
    ensures Run(t) == Done(Typed(OfBool(Holds(t)), Int(1)))
  {
    match t
    case BoolLiteral(_) =>
    case Cmp(op, l, r) => ComparisonMeans(op, l, r);
    case Unary(_, e) => ConditionsMean(e);
    case Binary(op, l, r) =>
      ConditionsMean(l);
      ConditionsMean(r);
      OneBit(Holds(l), Holds(r));
  }

  lemma ComparisonMeans(op: CmpOp, l: Term, r: Term)
    requires IsCondition(Cmp(op, l, r))
    ensures Run(Cmp(op, l, r)) == Done(Typed(OfBool(Holds(Cmp(op, l, r))), Int(1)))
  {
    OperandsMean(Cmp(op, l, r));
    var ty := MergeTypes(TypeOf(l), TypeOf(r));
    var a, b := ToBits(ty.width, Math(l)), ToBits(ty.width, Math(r));
    if op.TRUE? || op.FALSE? {
      assert Run(Cmp(op, l, r)) == ApplyCmp(op, Run(l).value, Run(r).value);
    } else {
      BitsCompare(op, a, b, ty);
      assert Run(Cmp(op, l, r)) == ApplyCmp(op, Run(l).value, Run(r).value);
    }
  }

  /** Comparing bits is comparing their signed values. */
  lemma BitsCompare(op: CmpOp, a: Value, b: Value, ty: Type)
    requires !ty.Void? && a.width == b.width && !op.UGT? && !op.UGE? && !op.ULT? && !op.ULE?
    ensures ExecuteCmp(op, a, b, ty) == Done(OfBool(Compared(op, SignedVal(a), SignedVal(b))))
  {
    assert a.val == b.val <==> SignedVal(a) == SignedVal(b);
  }

  lemma OneBit(p: bool, q: bool)
    ensures ExecuteBinary(LAND, OfBool(p), OfBool(q)) == Done(OfBool(p && q))
    ensures ExecuteBinary(LOR, OfBool(p), OfBool(q)) == Done(OfBool(p || q))
  {
    assert Pow2(1) == 2 * Pow2(0) && Pow2(0) == 1;
    assert BitAnd(0, 0) == 0 && BitXor(0, 0) == 0;
    var a, b := OfBool(p).val, OfBool(q).val;
    assert BitAnd(a, b) == if p && q then 1 else 0;
    assert BitXor(a, b) == if p != q then 1 else 0;
    assert BitXor(1, 0) == 1 && BitXor(0, 1) == 1;
  }
}
