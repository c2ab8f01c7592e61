/** The parser as the program runs it: rules that match input while their actions push and
  * pull operands on one stack, which a failed alternative leaves as it is. */
module AnnoCalculator {
  import opened AnnoTree
  import opened AnnoGrammar

  /** What a rule reports; what it did to the stack stays done. */
  datatype Matching = Matched(rest: string) | Unmatched | Thrown

  /** The report and the stack are those of the specification. */
  ghost predicate Agrees(m: Matching, stack: seq<Prod>, spec: Result) {
    match spec
    case Ok(rest, st, _) => m == Matched(rest) && stack == st
    case Fail(st) => m == Unmatched && stack == st
    case Abort => m == Thrown
  }

  /** Two results that differ at most in the number of spilled operands. */
  ghost predicate SameEnd(a: Result, b: Result) {
    match (a, b)
    case (Ok(rest, st, _), Ok(rest2, st2, _)) => rest == rest2 && st == st2
    case (Fail(st), Fail(st2)) => st == st2
    case (Abort, Abort) => true
    case _ => false
  }

  /** The action of an operator on what its operand has left. */
  lemma Reduces(op: BinOp, spec: Result, m: Matching, operands: seq<Prod>, stack: seq<Prod>)
    requires Agrees(m, operands, spec) && (m.Matched? ==> |operands| >= 2)
    requires stack == if m.Matched? then Joined(op, operands) else operands
    ensures Agrees(m, stack, Reduce(op, spec))
  {
  }

  /** After one operator has been tried, the rule is over or goes on with the next one. */
  lemma AfterOneOperator(level: nat, i: nat, s: string, before: seq<Prod>, m: Matching, after: seq<Prod>,
                         spec: Result)
    requires level < LEVELS && before != [] && i < |Operators(level)|
    requires SameEnd(spec, ReadOperator(level, OperatorsFrom(level, i), s, before))
    requires var o := Operators(level)[i];
      var t := ReadText(o.text, s);
      if t.Nothing? then m == Unmatched && after == before
      else Agrees(m, after, Reduce(o.op, ReadLevel(level + 1, t.value, before)))
    ensures !m.Unmatched? ==> Agrees(m, after, spec)
    ensures m.Unmatched? ==> after != [] && SameEnd(spec, ReadOperator(level, OperatorsFrom(level, i + 1), s, after))
  {
    NextOperator(level, OperatorsFrom(level, i), OperatorsFrom(level, i + 1), s, before);
  }

  class Calculator {
    var exprStack: seq<Prod>

    constructor ()
      ensures exprStack == []
    {
      exprStack := [];
    }

    /** The top operand; there always is one. */
    method Pull() returns (p: Prod)
      requires exprStack != []
      modifies this
      ensures old(exprStack) == exprStack + [p]
    {
      p := exprStack[|exprStack| - 1];
      exprStack := exprStack[..|exprStack| - 1];
    }

    method Push(p: Prod)
      modifies this
      ensures exprStack == old(exprStack) + [p]
    {
      exprStack := exprStack + [p];
    }

    method BinaryAction(op: BinOp)
      requires |exprStack| >= 2
      modifies this
      ensures exprStack == Joined(op, old(exprStack))
    {
      var rhs := Pull();
      var lhs := Pull();
      Push(Binary(op, lhs, rhs));
    }

    method UnaryAction(op: UnOp)
      requires exprStack != []
      modifies this
      ensures exprStack == Wrapped(op, old(exprStack))
    {
      var arg := Pull();
      Push(Unary(op, arg));
    }

    method CollectList()
      requires |exprStack| >= 2
      modifies this
      ensures exprStack == Collect(old(exprStack))
    {
      var rhs := Pull();
      var lhs := Pull();
      Push(CreateList(lhs, rhs));
    }

    /** The literals in turn; the action of the one that matches pushes its operand. */
    method Primitive(s: string) returns (m: Matching)
      modifies this
      ensures Agrees(m, exprStack, ReadPrimitive(s, old(exprStack)))
    {
      var t := Skip(s);
      var floating := MatchFloating(t);
      if floating.Throw? {
        return Thrown;
      }
      if floating.Match? {
        Push(DoubleConst(t[..floating.len]));
        return Matched(Skip(t[floating.len..]));
      }
      var integer := MatchInteger(t);
      if integer.Throw? {
        return Thrown;
      }
      if integer.Match? {
        var value := CastInteger(t[..integer.len]);
        if value.Nothing? {
          return Thrown;
        }
        Push(IntConst(value.value));
        return Matched(Skip(t[integer.len..]));
      }
      m := Word(t);
    }

    method Word(t: string) returns (m: Matching)
      modifies this
      ensures Agrees(m, exprStack, ReadWord(t, old(exprStack)))
    {
      var boolean := MatchBoolean(t);
      if boolean.Match? {
        Push(BoolConst(boolean.len == 4));
        return Matched(Skip(t[boolean.len..]));
      }
      var name := MatchIdentifier(t);
      if name.Match? {
        Push(Variable(t[..name.len]));
        return Matched(Skip(t[name.len..]));
      }
      var builtin := MatchMarked('\\', t);
      if builtin.Match? {
        Push(Builtin(t[1..builtin.len]));
        return Matched(Skip(t[builtin.len..]));
      }
      var symbol := MatchMarked('@', t);
      if symbol.Match? {
        Push(NamedConst(t[1..symbol.len]));
        return Matched(Skip(t[symbol.len..]));
      }
      m := Unmatched;
    }

    method PropertyName(s: string) returns (m: Matching)
      modifies this
      ensures Agrees(m, exprStack, ReadVariable(s, old(exprStack)))
    {
      var t := Skip(s);
      var name := MatchIdentifier(t);
      if !name.Match? {
        return Unmatched;
      }
      Push(Variable(t[..name.len]));
      m := Matched(Skip(t[name.len..]));
    }

    method Expr(s: string) returns (m: Matching)
      modifies this
      ensures Agrees(m, exprStack, ReadExpr(s, old(exprStack)))
      decreases |s|, 30
    {
      m := Level(0, s);
    }

    method Level(level: nat, s: string) returns (m: Matching)
      requires level <= LEVELS
      modifies this
      ensures Agrees(m, exprStack, ReadLevel(level, s, old(exprStack)))
      decreases |s|, 10 + LEVELS - level
    {
      if level == LEVELS {
        m := UnaryOperand(s);
        return;
      }
      m := Level(level + 1, s);
      if m.Matched? {
        m := OperatorStar(level, m.rest);
      }
    }

    /** As many operators as there are; what the last attempt pushed stays. */
    method OperatorStar(level: nat, s: string) returns (m: Matching)
      requires level < LEVELS && exprStack != []
      modifies this
      ensures Agrees(m, exprStack, ReadOperators(level, s, old(exprStack)))
      decreases |s|, 6
    {
      var rest, again := s, true;
      while again
        invariant |rest| <= |s| && exprStack != []
        invariant again ==> SameEnd(ReadOperators(level, s, old(exprStack)), ReadOperators(level, rest, exprStack))
        invariant !again ==> Agrees(Matched(rest), exprStack, ReadOperators(level, s, old(exprStack)))
        decreases |rest|, again
      {
        m := Operator(level, rest);
        if m.Thrown? {
          return;
        }
        again := m.Matched?;
        if again {
          rest := m.rest;
        }
      }
      m := Matched(rest);
    }

    /** The operators of the level in turn. */
    method Operator(level: nat, s: string) returns (m: Matching)
      requires level < LEVELS && exprStack != []
      modifies this
      ensures Agrees(m, exprStack, ReadOperator(level, Operators(level), s, old(exprStack)))
      decreases |s|, 5
    {
      var ops := Operators(level);
      ghost var spec := ReadOperator(level, ops, s, exprStack);
      for i := 0 to |ops|
        invariant exprStack != []
        invariant SameEnd(spec, ReadOperator(level, OperatorsFrom(level, i), s, exprStack))
      {
        ghost var before := exprStack;
        m := OneOperator(level, ops[i], s);
        AfterOneOperator(level, i, s, before, m, exprStack, spec);
        if !m.Unmatched? {
          return;
        }
      }
      m := Unmatched;
    }

    /** An operator with its right operand. */
    method OneOperator(level: nat, o: Infix, s: string) returns (m: Matching)
      requires level < LEVELS && exprStack != [] && o.text != []
      modifies this
      ensures var t := ReadText(o.text, s);
        if t.Nothing? then m == Unmatched && exprStack == old(exprStack)
        else Agrees(m, exprStack, Reduce(o.op, ReadLevel(level + 1, t.value, old(exprStack))))
      decreases |s|, 4
    {
      var text := ReadText(o.text, s);
      if text.Nothing? {
        return Unmatched;
      }
      m := Level(level + 1, text.value);
      ghost var operands := exprStack;
      if m.Matched? {
        BinaryAction(o.op);
      }
      Reduces(o.op, ReadLevel(level + 1, text.value, old(exprStack)), m, operands, exprStack);
    }

    method UnaryOperand(s: string) returns (m: Matching)
      modifies this
      ensures Agrees(m, exprStack, ReadUnary(UNARY_OPERATORS, s, old(exprStack)))
      decreases |s|, 9
    {
      var ops := UNARY_OPERATORS;
      for i := 0 to |ops|
        invariant SameEnd(ReadUnary(ops, s, old(exprStack)), ReadUnary(ops[i..], s, exprStack))
      {
        assert ops[i..][0] == ops[i] && ops[i..][1..] == ops[i + 1..];
        var text := ReadText(ops[i].0, s);
        if text.Just? {
          assert ops[i] in ops;
          m := Postfix(text.value);
          if m.Matched? {
            UnaryAction(ops[i].1);
          }
          if !m.Unmatched? {
            return;
          }
        }
      }
      m := Postfix(s);
    }

    method Postfix(s: string) returns (m: Matching)
      modifies this
      ensures Agrees(m, exprStack, ReadPostfix(s, old(exprStack)))
      decreases |s|, 8
    {
      m := Atom(s);
      if m.Matched? {
        m := SuffixStar(m.rest);
      }
    }

    method Atom(s: string) returns (m: Matching)
      modifies this
      ensures Agrees(m, exprStack, ReadAtom(s, old(exprStack)))
      decreases |s|, 7
    {
      m := Primitive(s);
      if !m.Unmatched? {
        return;
      }
      var open := ReadText("(", s);
      if open.Nothing? {
        return;
      }
      m := Expr(open.value);
      if m.Matched? {
        var close := ReadText(")", m.rest);
        m := if close.Just? then Matched(close.value) else Unmatched;
      }
    }

    method SuffixStar(s: string) returns (m: Matching)
      requires exprStack != []
      modifies this
      ensures Agrees(m, exprStack, ReadSuffixes(s, old(exprStack)))
      decreases |s|, 6
    {
      var rest, again := s, true;
      while again
        invariant |rest| <= |s| && exprStack != []
        invariant again ==> SameEnd(ReadSuffixes(s, old(exprStack)), ReadSuffixes(rest, exprStack))
        invariant !again ==> Agrees(Matched(rest), exprStack, ReadSuffixes(s, old(exprStack)))
        decreases |rest|, again
      {
        m := Suffix(rest);
        if m.Thrown? {
          return;
        }
        again := m.Matched?;
        if again {
          rest := m.rest;
        }
      }
      m := Matched(rest);
    }

    method Suffix(s: string) returns (m: Matching)
      requires exprStack != []
      modifies this
      ensures Agrees(m, exprStack, ReadSuffix(s, old(exprStack)))
      decreases |s|, 4
    {
      var square, open := ReadText("[", s), ReadText("(", s);
      if square.Just? {
        m := Expr(square.value);
        m := MustClose("]", INDEX, m);
      } else if open.Just? {
        m := Arguments(open.value);
        m := MustClose(")", CALL, m);
      } else {
        m := Member(".", PROPERTY, s);
        if m.Unmatched? {
          m := Member("->", INDIR_PROPERTY, s);
        }
      }
    }

    /** What was opened must be closed. */
    method MustClose(text: string, op: BinOp, inner: Matching) returns (m: Matching)
      requires inner.Matched? ==> |exprStack| >= 2
      modifies this
      ensures inner.Matched? && ReadText(text, inner.rest).Just? ==>
        && m == Matched(ReadText(text, inner.rest).value)
        && exprStack == Joined(op, old(exprStack))
      ensures !inner.Matched? || ReadText(text, inner.rest).Nothing? ==> m == Thrown
    {
      if !inner.Matched? {
        return Thrown;
      }
      var close := ReadText(text, inner.rest);
      if close.Nothing? {
        return Thrown;
      }
      BinaryAction(op);
      m := Matched(close.value);
    }

    method Member(text: string, op: BinOp, s: string) returns (m: Matching)
      requires exprStack != [] && text != []
      modifies this
      ensures Agrees(m, exprStack, ReadMember(text, op, s, old(exprStack)))
    {
      var after := ReadText(text, s);
      if after.Nothing? {
        return Unmatched;
      }
      m := PropertyName(after.value);
      if m.Matched? {
        BinaryAction(op);
      }
    }

    method Arguments(s: string) returns (m: Matching)
      modifies this
      ensures Agrees(m, exprStack, ReadArguments(s, old(exprStack)))
      decreases |s|, 31
    {
      m := Expr(s);
      if !m.Matched? {
        return;
      }
      Push(List([]));
      CollectList();
      m := MoreArguments(m.rest);
    }

    method MoreArguments(s: string) returns (m: Matching)
      requires exprStack != []
      modifies this
      ensures Agrees(m, exprStack, ReadMoreArguments(s, old(exprStack)))
      decreases |s|, 5
    {
      var rest := s;
      var comma := ReadText(",", rest);
      while comma.Just?
        invariant |rest| <= |s| && exprStack != [] && comma == ReadText(",", rest)
        invariant SameEnd(ReadMoreArguments(s, old(exprStack)), ReadMoreArguments(rest, exprStack))
        decreases |rest|
      {
        m := Expr(comma.value);
        if !m.Matched? {
          return Thrown;
        }
        CollectList();
        rest := m.rest;
        comma := ReadText(",", rest);
      }
      m := Matched(rest);
    }
  }
}
