/** Printed expressions that do not read back as themselves. */
module AnnoLimits {
  import opened AnnoTree
  import opened AnnoGrammar
  import opened AnnoRoundTrip

  /** What the innermost level refuses, the expression refuses. */
  lemma {:induction false} RefusedOutward(level: nat, s: string, st: seq<Prod>, after: seq<Prod>)
    requires level <= LEVELS && ReadLevel(LEVELS, s, st) == Fail(after)
    ensures ReadLevel(level, s, st) == Fail(after)
    decreases LEVELS - level
  {
    if level < LEVELS {
      RefusedOutward(level + 1, s, st, after);
    }
  }

  /** A boolean constant is printed behind a '#', which no operand begins with. */
  lemma BooleansAreRefused(b: bool, st: seq<Prod>)
    ensures ReadExpr(Print(BoolConst(b)), st) == Fail(st)
  {
    NoOperand(0, Print(BoolConst(b)), st);
  }

  /** So is a dereference, printed as question marks. */
  lemma LoadsAreRefused(e: Prod, st: seq<Prod>)
    ensures ReadExpr(Print(Unary(LOAD, e)), st) == Fail(st)
  {
    NoOperand(0, Print(Unary(LOAD, e)), st);
  }

  /** An implication is refused, and its left operand stays behind on the stack. */
  lemma ImplicationsAreRefused(l: Prod, r: Prod, st: seq<Prod>)
    requires Printable(l)
    ensures ReadExpr(Print(Binary(IMPLIES, l, r)), st) == Fail(st + [Reparse(l)])
  {
    var tail := "??? " + Print(r) + ")";
    var k := " " + tail;
    var s := Print(l) + k;
    ImplicationText(l, r);
    MarksStop(tail);
    LevelReads(0, l, k, st);
    PrintStarts(l);
    SkipStarter(s);
    ParenthesisReads(s, st);
    assert ReadPostfix("(" + s, st) == Fail(st + [Reparse(l)]);
    ParenthesisIsNotUnary(s, st);
    RefusedOutward(0, "(" + s, st, st + [Reparse(l)]);
  }

  lemma ParenthesisIsNotUnary(s: string, st: seq<Prod>)
    ensures ReadUnary(UNARY_OPERATORS, "(" + s, st) == ReadPostfix("(" + s, st)
  {
    TextReads('(', s);
    NoUnary(UNARY_OPERATORS, "(" + s, st);
  }

  lemma ImplicationText(l: Prod, r: Prod)
    ensures Print(Binary(IMPLIES, l, r)) == "(" + (Print(l) + (" " + ("??? " + Print(r) + ")")))
  {
  }

  /** Question marks end an operand at every level. */
  lemma MarksStop(tail: string)
    requires tail != [] && tail[0] == '?'
    ensures Skip(" " + tail) == tail && NoSuffix(tail) && ReadText(")", tail) == Nothing
    ensures forall m | 0 <= m < LEVELS :: Quiet(m, tail)
  {
    assert (" " + tail)[1..] == tail;
    forall m | 0 <= m < LEVELS ensures Quiet(m, tail) {
      QuietBeforeNone(m, tail);
    }
  }

  /** A negative literal comes back as the negation of a positive one. */
  lemma NegativeLiteralsReadAsNegations(n: int, st: seq<Prod>)
    requires 0 < n < 0x8000_0000
    ensures ReadExpr(Print(IntConst(-n)), st) == Ok("", st + [Unary(NEG, IntConst(n))], 0)
  {
    ReadUndoesPrint(Unary(NEG, IntConst(n)), st);
  }

  /** A suffix on a unary operand comes back inside it: the printer writes no parentheses there. */
  lemma SuffixesBindTighter(op: BinOp, u: UnOp, e: Prod, r: Prod, st: seq<Prod>)
    requires !IsInfix(op) && !op.IMPLIES? && Printable(Unary(u, Binary(op, e, r)))
    ensures ReadExpr(Print(Binary(op, Unary(u, e), r)), st)
      == Ok("", st + [Unary(u, Reparse(Binary(op, e, r)))], 0)
  {
    ReadUndoesPrint(Unary(u, Binary(op, e, r)), st);
    assert Print(Binary(op, Unary(u, e), r)) == Print(Unary(u, Binary(op, e, r)));
  }
}
