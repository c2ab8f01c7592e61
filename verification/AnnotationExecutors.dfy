/** The annotation executor: a value stack, and one transformation for each kind of term that
  * takes its operands from the stack after they have been transformed. */
module AnnotationExecutors {
  import opened AnnotationTerms

  datatype Status = Fine | AssertionFailed | Error

  function StatusOf(o: Outcome<Typed>): Status {
    match o
    case Done(_) => Fine
    case Violated => AssertionFailed
    case Unsupported => Error
  }

  class AnnotationExecutor {
    var valueStack: seq<Typed>

    constructor ()
      ensures valueStack == []
    {
      valueStack := [];
    }

    method Push(v: Typed)
      modifies this
      ensures valueStack == old(valueStack) + [v]
    {
      valueStack := valueStack + [v];
    }

    method Pop() returns (v: Typed)
      requires valueStack != []
      modifies this
      ensures old(valueStack) == valueStack + [v]
    {
      v := valueStack[|valueStack| - 1];
      valueStack := valueStack[..|valueStack| - 1];
    }

    /** Exactly the value of the term is added to the stack. */
    method Transform(t: Term) returns (s: Status)
      modifies this
      ensures s == StatusOf(Run(t))
      ensures s.Fine? ==> valueStack == old(valueStack) + [Run(t).value]
      decreases t, 1
    {
      match t {
        case Program(v) => Push(Typed(v, Int(v.width)));
        case Literal(n) => Push(Typed(ToBits(LITERAL_WIDTH, n), Void));
        case BoolLiteral(b) => Push(Typed(OfBool(b), Int(1)));
        case Unary(op, e) =>
          s := Transform(e);
          if s.Fine? {
            TransformUnary(op);
          }
          return;
        case Sign(e) =>
          s := Transform(e);
          if s.Fine? {
            TransformSign();
          }
          return;
        case Ternary(_, _, _) =>
          s := TransformOperands(t);
          return;
        case _ =>
          s := TransformPair(t);
          return;
      }
      s := Fine;
    }

    /** The operands, left before right, and then the operation on the two. */
    method TransformPair(t: Term) returns (s: Status)
      requires t.Binary? || t.Cmp? || t.Axiom?
      modifies this
      ensures s == StatusOf(Run(t))
      ensures s.Fine? ==> valueStack == old(valueStack) + [Run(t).value]
      decreases t, 0
    {
      s := Transform(t.lhv);
      if !s.Fine? {
        return;
      }
      s := Transform(t.rhv);
      if !s.Fine? {
        return;
      }
      if t.Binary? {
        s := TransformBinary(t.bop);
      } else if t.Cmp? {
        s := TransformCmp(t.cop);
      } else {
        s := TransformAxiom();
      }
    }

    method TransformOperands(t: Term) returns (s: Status)
      requires t.Ternary?
      modifies this
      ensures s == StatusOf(Run(t))
      ensures s.Fine? ==> valueStack == old(valueStack) + [Run(t).value]
      decreases t, 0
    {
      s := Transform(t.cnd);
      if !s.Fine? {
        return;
      }
      s := Transform(t.tru);
      if !s.Fine? {
        return;
      }
      s := Transform(t.fls);
      if !s.Fine? {
        return;
      }
      TransformTernary();
    }

    method TransformUnary(op: UnaryOp)
      requires valueStack != []
      modifies this
      ensures var n := |old(valueStack)|;
        valueStack == old(valueStack)[..n - 1] + [ApplyUnary(op, old(valueStack)[n - 1])]
    {
      var v := Pop();
      Push(ApplyUnary(op, v));
    }

    method TransformSign()
      requires valueStack != []
      modifies this
      ensures var n := |old(valueStack)|;
        valueStack == old(valueStack)[..n - 1] + [ApplySign(old(valueStack)[n - 1])]
    {
      var v := Pop();
      Push(ApplySign(v));
    }

    method TransformBinary(op: BinaryOp) returns (s: Status)
      requires |valueStack| >= 2
      modifies this
      ensures var n := |old(valueStack)|;
        var r := ApplyBinary(op, old(valueStack)[n - 2], old(valueStack)[n - 1]);
        s == StatusOf(r) && (r.Done? ==> valueStack == old(valueStack)[..n - 2] + [r.value])
    {
      var right := Pop();
      var left := Pop();
      var r := ApplyBinary(op, left, right);
      if r.Done? {
        Push(r.value);
      }
      s := StatusOf(r);
    }

    method TransformCmp(op: CmpOp) returns (s: Status)
      requires |valueStack| >= 2
      modifies this
      ensures var n := |old(valueStack)|;
        var r := ApplyCmp(op, old(valueStack)[n - 2], old(valueStack)[n - 1]);
        s == StatusOf(r) && (r.Done? ==> valueStack == old(valueStack)[..n - 2] + [r.value])
    {
      var right := Pop();
      var left := Pop();
      var r := ApplyCmp(op, left, right);
      if r.Done? {
        Push(r.value);
      }
      s := StatusOf(r);
    }

    method TransformTernary()
      requires |valueStack| >= 3
      modifies this
      ensures var n := |old(valueStack)|;
        valueStack == old(valueStack)[..n - 3]
          + [ApplyTernary(old(valueStack)[n - 3], old(valueStack)[n - 2], old(valueStack)[n - 1])]
    {
      var fls := Pop();
      var tru := Pop();
      var cond := Pop();
      Push(ApplyTernary(cond, tru, fls));
    }

    /** Takes the axiom off; the value it was attached to stays on top. */
    method TransformAxiom() returns (s: Status)
      requires valueStack != []
      modifies this
      ensures var n := |old(valueStack)|;
        && valueStack == old(valueStack)[..n - 1]
        && s == if old(valueStack)[n - 1].val.val == 0 then AssertionFailed else Fine
    {
      var axiom := Pop();
      s := if axiom.val.val == 0 then AssertionFailed else Fine;
    }
  }
}
