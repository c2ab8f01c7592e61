/** The terms that annotations are made of, the values that the annotation executor computes
  * for them bit by bit, and what these values mean as signed integers. */
module AnnotationTerms {
  import opened Bits

  /** A literal has no type of its own. */
  type Width = n: nat | n > 0 witness 1

  datatype Type = Void | Int(width: Width)

  datatype UnaryOp = BNOT | NOT | NEG
  datatype BinaryOp = ADD | SUB | MUL | DIV | REM | LAND | LOR | BAND | BOR | XOR | SHL | ASHR | LSHR | IMPLIES
  datatype CmpOp = TRUE | FALSE | EQ | NEQ | GT | GE | LT | LE | UGT | UGE | ULT | ULE

  type Value = b: Bits | Fits(b) witness Bits(1, 0)

  datatype Term =
    | Program(v: Value)
    | Literal(n: int)
    | BoolLiteral(b: bool)
    | Unary(uop: UnaryOp, rhv: Term)
    | Binary(bop: BinaryOp, lhv: Term, rhv: Term)
    | Cmp(cop: CmpOp, lhv: Term, rhv: Term)
    | Ternary(cnd: Term, tru: Term, fls: Term)
    | Sign(rhv: Term)
    | Axiom(lhv: Term, rhv: Term)

  /** A value on the stack, a violated axiom, or an operation that the executor does not have
    * or whose operands differ in width. */
  datatype Outcome<T> = Done(value: T) | Violated | Unsupported

  // ---------- values bit by bit ----------

  datatype Typed = Typed(val: Value, ty: Type)

  const LITERAL_WIDTH := 64

  function ToBits(width: nat, n: int): (b: Value)
    requires width > 0
    ensures b.width == width
  {
    Bits(width, n % Pow2(width))
  }

  function OfBool(b: bool): (v: Value)
    ensures v.width == 1
  {
    assert Pow2(1) == 2 * Pow2(0) && Pow2(0) == 1;
    Bits(1, if b then 1 else 0)
  }

  /** The type that two operands are brought to. */
  function MergeTypes(l: Type, r: Type): Type {
    if l == r then l
    else if l.Void? then r
    else if r.Void? then l
    else Int(if l.width > r.width then l.width else r.width)
  }

  function SextOrTrunc(v: Value, width: nat): (r: Value)
    requires width > 0
    ensures r.width == width
  {
    AdaptFits(v, width);
    AdaptTo(v, width, true)
  }

  lemma AdaptFits(v: Bits, width: nat)
    requires Fits(v) && width > 0
    ensures Fits(AdaptTo(v, width, true))
  {
    if width > v.width {
      SextFits(v, width);
    }
  }

  /** A value of the type is left alone, whatever its width. */
  function AdjustToType(v: Typed, ty: Type): Value {
    if v.ty == ty || ty.Void? then v.val
    else if v.val.width != ty.width then SextOrTrunc(v.val, ty.width)
    else v.val
  }

  function TruncDiv(a: int, b: int): int
    requires b != 0
  {
    if (a < 0) == (b < 0) then Abs(a) / Abs(b) else -(Abs(a) / Abs(b))
  }

  function Abs(a: int): nat {
    if a < 0 then -a else a
  }

  function BitAnd(a: nat, b: nat): nat
    decreases a
  {
    if a == 0 then 0 else 2 * BitAnd(a / 2, b / 2) + (if a % 2 == 1 && b % 2 == 1 then 1 else 0)
  }

  /** The bits in which the two differ. */
  function BitXor(a: nat, b: nat): nat
    decreases a + b
  {
    if a + b == 0 then 0 else 2 * BitXor(a / 2, b / 2) + (if a % 2 != b % 2 then 1 else 0)
  }

  function BitOr(a: nat, b: nat): nat {
    BitXor(BitXor(a, b), BitAnd(a, b))
  }

  function ExecuteBinary(op: BinaryOp, l: Value, r: Value): (v: Outcome<Value>)
    ensures v.Done? ==> v.value.width == l.width
  {
    if l.width != r.width then Unsupported
    else
      var w := l.width;
      match op
      case ADD => Done(ToBits(w, l.val + r.val))
      case SUB => Done(ToBits(w, l.val - r.val))
      case MUL => Done(ToBits(w, l.val * r.val))
      case DIV => if r.val == 0 then Unsupported else Done(ToBits(w, Quotient(l, r)))
      case REM => if r.val == 0 then Unsupported else Done(ToBits(w, SignedVal(l) - Quotient(l, r) * SignedVal(r)))
      case LAND => Done(ToBits(w, BitAnd(l.val, r.val)))
      case LOR => Done(ToBits(w, BitOr(l.val, r.val)))
      case BAND => Done(ToBits(w, BitAnd(l.val, r.val)))
      case BOR => Done(ToBits(w, BitOr(l.val, r.val)))
      case XOR => Done(ToBits(w, BitXor(l.val, r.val)))
      case _ => Unsupported
  }

  function Quotient(l: Value, r: Value): int {
    if SignedVal(r) == 0 then 0 else TruncDiv(SignedVal(l), SignedVal(r))
  }

  /** There is no comparison at the type of literals. */
  function ExecuteCmp(op: CmpOp, l: Value, r: Value, ty: Type): Outcome<Value> {
    if ty.Void? || l.width != r.width then Unsupported
    else
      match op
      case TRUE => Done(OfBool(true))
      case FALSE => Done(OfBool(false))
      case EQ => Done(OfBool(l.val == r.val))
      case NEQ => Done(OfBool(l.val != r.val))
      case GT => Done(OfBool(SignedVal(l) > SignedVal(r)))
      case GE => Done(OfBool(SignedVal(l) >= SignedVal(r)))
      case LT => Done(OfBool(SignedVal(l) < SignedVal(r)))
      case LE => Done(OfBool(SignedVal(l) <= SignedVal(r)))
      case UGT => Done(OfBool(l.val > r.val))
      case UGE => Done(OfBool(l.val >= r.val))
      case ULT => Done(OfBool(l.val < r.val))
      case ULE => Done(OfBool(l.val <= r.val))
  }

  function ApplyUnary(op: UnaryOp, v: Typed): Typed {
    var w := v.val.width;
    match op
    case BNOT => Typed(ToBits(w, Pow2(w) - 1 - v.val.val), v.ty)
    case NOT => Typed(OfBool(v.val.val == 0), Int(1))
    case NEG => Typed(ToBits(w, Pow2(w) - v.val.val), v.ty)
  }

  /** A false premise leaves a single bit, whatever the type. */
  function ApplyBinary(op: BinaryOp, l: Typed, r: Typed): Outcome<Typed> {
    var ty := MergeTypes(l.ty, r.ty);
    var a, b := AdjustToType(l, ty), AdjustToType(r, ty);
    if op.IMPLIES? then Done(Typed(if a.val != 0 then b else OfBool(true), ty))
    else
      match ExecuteBinary(op, a, b)
      case Done(v) => Done(Typed(v, ty))
      case _ => Unsupported
  }

  function ApplyCmp(op: CmpOp, l: Typed, r: Typed): Outcome<Typed> {
    var ty := MergeTypes(l.ty, r.ty);
    if op.TRUE? || op.FALSE? then Done(Typed(OfBool(op.TRUE?), Int(1)))
    else
      match ExecuteCmp(op, AdjustToType(l, ty), AdjustToType(r, ty), ty)
      case Done(v) => Done(Typed(v, Int(1)))
      case _ => Unsupported
  }

  function ApplyTernary(c: Typed, t: Typed, f: Typed): Typed {
    var ty := MergeTypes(t.ty, f.ty);
    Typed(if c.val.val != 0 then AdjustToType(t, ty) else AdjustToType(f, ty), ty)
  }

  function ApplySign(v: Typed): Typed {
    Typed(OfBool(SignedVal(v.val) >= 0), Int(1))
  }

  /** The value of a term, by recursion over it. */
  function Run(t: Term): Outcome<Typed> {
    match t
    case Program(v) => Done(Typed(v, Int(v.width)))
    case Literal(n) => Done(Typed(ToBits(LITERAL_WIDTH, n), Void))
    case BoolLiteral(b) => Done(Typed(OfBool(b), Int(1)))
    case Unary(op, e) => Then(Run(e), v => Done(ApplyUnary(op, v)))
    case Binary(op, l, r) => Then(Run(l), a => Then(Run(r), b => ApplyBinary(op, a, b)))
    case Cmp(op, l, r) => Then(Run(l), a => Then(Run(r), b => ApplyCmp(op, a, b)))
    case Ternary(c, p, q) => Then(Run(c), a => Then(Run(p), b => Then(Run(q), d => Done(ApplyTernary(a, b, d)))))
    case Sign(e) => Then(Run(e), v => Done(ApplySign(v)))
    case Axiom(l, r) => Then(Run(l), a => Then(Run(r), (b: Typed) => if b.val.val == 0 then Violated else Done(a)))
  }

  function Then<S, T>(o: Outcome<S>, f: S -> Outcome<T>): Outcome<T> {
    match o
    case Done(v) => f(v)
    case Violated => Violated
    case Unsupported => Unsupported
  }
}
