/** An annotation that is accepted leaves one operand on the stack: whatever is abandoned on
  * the way stops the reading before the end of the input. */
module AnnoSafety {
  import opened AnnoTree
  import opened AnnoGrammar
  import opened AnnoRoundTrip
  import opened AnnoShape
  import opened AnnoConverse

  /** The input goes on with an operator. */
  predicate AtOperator(s: string) {
    var t := Skip(s);
    t != [] && OperatorStart(t[0])
  }

  /** The input goes on with an operator that no looser level can read. */
  ghost predicate Stuck(level: nat, s: string)
    requires level <= LEVELS
  {
    AtOperator(s) && forall m | 0 <= m < level :: Quiet(m, s)
  }

  ghost predicate SpillsStuck(level: nat, r: Result)
    requires level <= LEVELS
  {
    r.Ok? && r.spilled > 0 ==> Stuck(level, r.rest)
  }

  ghost predicate Clean(r: Result) {
    r.Ok? ==> r.spilled == 0
  }

  ghost predicate SpillsAtOperator(r: Result) {
    r.Ok? && r.spilled > 0 ==> AtOperator(r.rest)
  }

  lemma OperatorCloses(s: string)
    requires AtOperator(s)
    ensures ReadText(")", s) == ReadText("]", s) == ReadText(",", s) == Nothing
  {
  }

  // ---------- operators whose operand has been abandoned ----------

  lemma {:induction false} OperatorSkips(level: nat, ops: seq<Infix>, s: string, st: seq<Prod>)
    requires level < LEVELS && st != [] && forall o | o in ops :: o.text != []
    ensures ReadOperator(level, ops, s, st) == ReadOperator(level, ops, Skip(s), st)
    decreases |ops|
  {
    SkipSkip(s);
    if ops != [] {
      var t := ReadText(ops[0].text, s);
      if t.Just? {
        assert ops[0] in ops;
        var r := ReadLevel(level + 1, t.value, st);
        if r.Fail? {
          OperatorSkips(level, ops[1..], s, r.stack);
        }
      } else {
        OperatorSkips(level, ops[1..], s, st);
      }
    }
  }

  /** Some operand can begin with what follows the operator. */
  predicate Takes(text: string, s: string) {
    text <= s && text != [] && var t := Skip(s[|text|..]); t != [] && !Foreign(t[0])
  }

  lemma PrefixChars(text: string, s: string)
    requires text <= s && text != []
    ensures s[0] == text[0] && (|text| >= 2 ==> s[1] == text[1]) && (|text| >= 3 ==> s[2] == text[2])
  {
  }

  /** Two operators of which one is a prefix of the other: what remains of the longer one
    * begins no operand. */
  lemma PrefixesAreForeign(level: nat, i: nat, o: string, m: nat, j: nat, p: string, s: string)
    requires IsOperator(level, i, o) && IsOperator(m, j, p) && (m < level || (m == level && j > i))
    requires Takes(o, s) && p <= s
    ensures |p| == 1 && |s| >= 2 && Foreign(s[1]) && !IsSpace(s[0])
  {
    var t := s[|o|..];
    PrefixChars(o, s);
    PrefixChars(p, s);
    assert |o| < |s| ==> t != [] && t[0] == s[|o|];
    assert t != [] && !IsSpace(t[0]) ==> Skip(t) == t;
    PrefixPairs(level, i, o, m, j, p);
  }

  lemma PrefixPairs(level: nat, i: nat, o: string, m: nat, j: nat, p: string)
    requires IsOperator(level, i, o) && IsOperator(m, j, p) && (m < level || (m == level && j > i))
    requires o[0] == p[0] && (|o| >= 2 && |p| >= 2 ==> o[1] == p[1]) && (|o| >= 3 && |p| >= 3 ==> o[2] == p[2])
    ensures |o| >= 2 && |p| == 1 ==> Foreign(o[1])
    ensures |o| == 1 || |p| >= 2 ==> |o| < |p| && Foreign(p[|o|])
    ensures |o| == 1 ==> |p| == 2
  {
  }

  /** No operator that is tried later, at this level or a looser one, reads an operand. */
  lemma {:induction false} LaterFail(level: nat, i: nat, m: nat, from: nat, s: string, st: seq<Prod>)
    requires level < LEVELS && i < |Operators(level)| && m <= level && from <= |Operators(m)| && st != []
    requires m == level ==> from > i
    requires Takes(Operators(level)[i].text, s) && Skip(s) == s
    ensures ReadOperator(m, OperatorsFrom(m, from), s, st) == Fail(st)
    decreases |Operators(m)| - from
  {
    if from < |Operators(m)| {
      LaterFail(level, i, m, from + 1, s, st);
      NextOperator(m, OperatorsFrom(m, from), OperatorsFrom(m, from + 1), s, st);
      if ReadText(Operators(m)[from].text, s).Just? {
        ForeignHere(level, i, m, from, s, st);
      }
    }
  }

  lemma ForeignHere(level: nat, i: nat, m: nat, from: nat, s: string, st: seq<Prod>)
    requires level < LEVELS && i < |Operators(level)| && m <= level && from < |Operators(m)|
    requires m == level ==> from > i
    requires Takes(Operators(level)[i].text, s) && Skip(s) == s && Operators(m)[from].text <= s
    ensures var t := ReadText(Operators(m)[from].text, s); t.Just? && ReadLevel(m + 1, t.value, st) == Fail(st)
  {
    OperatorAt(level, i);
    OperatorAt(m, from);
    PrefixesAreForeign(level, i, Operators(level)[i].text, m, from, Operators(m)[from].text, s);
    SkipAnyStart(s[1..]);
    NoOperand(m + 1, s[1..], st);
  }

  lemma TakenIsStuck(level: nat, i: nat, s: string)
    requires level < LEVELS && i < |Operators(level)| && Takes(Operators(level)[i].text, Skip(s))
    ensures Stuck(level, s)
  {
    SkipSkip(s);
    StartsAtOperator(level, i, Skip(s));
    forall m | 0 <= m < level ensures Quiet(m, s) {
      forall st: seq<Prod> | st != [] ensures ReadOperator(m, Operators(m), s, st) == Fail(st) {
        LaterFail(level, i, m, 0, Skip(s), st);
        OperatorSkips(m, Operators(m), s, st);
      }
    }
  }

  lemma StartsAtOperator(level: nat, i: nat, s: string)
    requires level < LEVELS && i < |Operators(level)| && Operators(level)[i].text <= s
    ensures s != [] && OperatorStart(s[0])
  {
    OperatorAt(level, i);
    TextStarts(level, i, Operators(level)[i].text);
    assert s[0] == Operators(level)[i].text[0];
  }

  // ---------- what spills ----------

  lemma {:induction false} ExprSpills(s: string, st: seq<Prod>)
    ensures SpillsStuck(0, ReadExpr(s, st))
    decreases |s|, 30
  {
    LevelSpills(0, s, st);
  }

  lemma {:induction false} LevelSpills(level: nat, s: string, st: seq<Prod>)
    requires level <= LEVELS
    ensures SpillsStuck(level, ReadLevel(level, s, st))
    decreases |s|, 10 + LEVELS - level
  {
    if level == LEVELS {
      UnaryIsClean(0, s, st);
      assert UNARY_OPERATORS[0..] == UNARY_OPERATORS;
    } else {
      LevelSpills(level + 1, s, st);
      var r := ReadLevel(level + 1, s, st);
      if r.Ok? {
        if r.spilled > 0 {
          QuietEnds(level, r.rest, r.stack);
        } else {
          OperatorsSpill(level, r.rest, r.stack);
        }
      }
    }
  }

  lemma {:induction false} OperatorsSpill(level: nat, s: string, st: seq<Prod>)
    requires level < LEVELS && st != []
    ensures SpillsStuck(level, ReadOperators(level, s, st))
    decreases |s|, 5
  {
    OperatorSpills(level, 0, s, st);
    var r := ReadOperator(level, Operators(level), s, st);
    if r.Ok? {
      if r.spilled > 0 {
        QuietEnds(level, r.rest, r.stack);
      } else {
        OperatorsSpill(level, r.rest, r.stack);
      }
    }
  }

  /** An operator that has been read has spilled what its operand has; one that fails leaves
    * something behind only where no looser level can read on. */
  ghost predicate OperatorStuck(level: nat, s: string, st: seq<Prod>, r: Result)
    requires level < LEVELS
  {
    SpillsStuck(level + 1, r) && (r.Fail? && r.stack != st ==> Stuck(level, s))
  }

  lemma {:induction false} OperatorSpills(level: nat, i: nat, s: string, st: seq<Prod>)
    requires level < LEVELS && st != [] && i <= |Operators(level)|
    ensures OperatorStuck(level, s, st, ReadOperator(level, OperatorsFrom(level, i), s, st))
    decreases |s|, 4, |Operators(level)| - i
  {
    if i < |Operators(level)| {
      var t := ReadText(Operators(level)[i].text, s);
      NextOperator(level, OperatorsFrom(level, i), OperatorsFrom(level, i + 1), s, st);
      if t.Nothing? {
        OperatorSpills(level, i + 1, s, st);
      } else {
        LevelSpills(level + 1, t.value, st);
        var q := ReadLevel(level + 1, t.value, st);
        if q == Fail(st) {
          OperatorSpills(level, i + 1, s, st);
          FailedCleanly(level, s, st, ReadOperator(level, OperatorsFrom(level, i + 1), s, st));
        } else if q.Fail? {
          OperandTaken(level + 1, Operators(level)[i].text, s, t.value, st);
          Abandoned(level, i, s, q.stack);
        } else {
          ReduceSpills(level, s, st, Operators(level)[i].op, q);
        }
      }
    }
  }

  lemma FailedCleanly(level: nat, s: string, st: seq<Prod>, r: Result)
    requires level < LEVELS && OperatorStuck(level, s, st, r)
    ensures OperatorStuck(level, s, st, More(r, |st| - |st|))
  {
  }

  lemma ReduceSpills(level: nat, s: string, st: seq<Prod>, op: BinOp, q: Result)
    requires level < LEVELS && SpillsStuck(level + 1, q) && !q.Fail? && (q.Ok? ==> |q.stack| >= 2)
    ensures OperatorStuck(level, s, st, Reduce(op, q))
  {
  }

  /** An operand that leaves something behind begins like an operand. */
  lemma OperandTaken(inner: nat, text: string, s: string, t: string, st: seq<Prod>)
    requires inner <= LEVELS && text != [] && ReadText(text, s) == Just(t) && ReadLevel(inner, t, st) != Fail(st)
    ensures Takes(text, Skip(s))
  {
    NothingLeftBehind(inner, t, st);
  }

  lemma Abandoned(level: nat, i: nat, s: string, after: seq<Prod>)
    requires level < LEVELS && i < |Operators(level)| && Takes(Operators(level)[i].text, Skip(s)) && after != []
    ensures Stuck(level, s) && ReadOperator(level, OperatorsFrom(level, i + 1), s, after) == Fail(after)
  {
    SkipSkip(s);
    TakenIsStuck(level, i, s);
    LaterFail(level, i, level, i + 1, Skip(s), after);
    OperatorSkips(level, OperatorsFrom(level, i + 1), s, after);
  }

  lemma NothingLeftBehind(level: nat, t: string, st: seq<Prod>)
    requires level <= LEVELS
    ensures t == [] || Foreign(t[0]) ==> ReadLevel(level, t, st) == Fail(st)
  {
    if t == [] {
      EmptyIsNoOperand(level, st);
    } else if Foreign(t[0]) {
      NoOperand(level, t, st);
    }
  }

  lemma {:induction false} EmptyIsNoOperand(level: nat, st: seq<Prod>)
    requires level <= LEVELS
    ensures ReadLevel(level, "", st) == Fail(st)
    decreases LEVELS - level
  {
    if level < LEVELS {
      EmptyIsNoOperand(level + 1, st);
    } else {
      NoUnary(UNARY_OPERATORS, "", st);
    }
  }

  // ---------- tighter than the operators, nothing spills ----------

  lemma {:induction false} UnaryIsClean(i: nat, s: string, st: seq<Prod>)
    requires i <= |UNARY_OPERATORS|
    ensures Clean(ReadUnary(UNARY_OPERATORS[i..], s, st))
    decreases |s|, 9, |UNARY_OPERATORS| - i
  {
    var ops := UNARY_OPERATORS[i..];
    if ops == [] {
      PostfixIsClean(s, st);
    } else {
      var t := ReadText(ops[0].0, s);
      assert ops[0] == UNARY_OPERATORS[i] && ops[1..] == UNARY_OPERATORS[i + 1..];
      if t.Just? {
        PostfixIsClean(t.value, st);
        var r := ReadPostfix(t.value, st);
        if r.Fail? {
          SignIsLeft(i, i + 1, s, r.stack);
        }
      } else {
        UnaryIsClean(i + 1, s, st);
      }
    }
  }

  /** After a sign without an operand, nothing is read. */
  lemma {:induction false} SignIsLeft(j: nat, i: nat, s: string, st: seq<Prod>)
    requires j < i <= |UNARY_OPERATORS| && UNARY_OPERATORS[j].0 <= Skip(s)
    ensures !ReadUnary(UNARY_OPERATORS[i..], s, st).Ok?
    decreases |UNARY_OPERATORS| - i
  {
    var ops, u := UNARY_OPERATORS[i..], Skip(s);
    assert u[0] == UNARY_OPERATORS[j].0[0];
    if ops == [] {
      StarIsNoPostfix(s, st);
    } else {
      assert ops[0] == UNARY_OPERATORS[i] && ops[1..] == UNARY_OPERATORS[i + 1..];
      assert ops[0].0[0] != u[0];
      SignIsLeft(j, i + 1, s, st);
    }
  }

  lemma StarIsNoPostfix(s: string, st: seq<Prod>)
    requires var u := Skip(s); u != [] && (u[0] == '*' || Sign(u[0]))
    ensures ReadPostfix(s, st) == Fail(st)
  {
    NotNumeric(Skip(s));
    assert ReadPrimitive(s, st) == Fail(st);
    assert ReadText("(", s) == Nothing;
  }

  lemma {:induction false} PostfixIsClean(s: string, st: seq<Prod>)
    ensures Clean(ReadPostfix(s, st))
    decreases |s|, 8
  {
    AtomIsClean(s, st);
    var r := ReadAtom(s, st);
    if r.Ok? {
      SuffixesAreClean(r.rest, r.stack);
    }
  }

  lemma {:induction false} AtomIsClean(s: string, st: seq<Prod>)
    ensures Clean(ReadAtom(s, st))
    decreases |s|, 7
  {
    var p, t := ReadPrimitive(s, st), ReadText("(", s);
    if p.Fail? && t.Just? {
      ExprSpills(t.value, st);
      var r := ReadExpr(t.value, st);
      if r.Ok? && r.spilled > 0 {
        OperatorCloses(r.rest);
      }
    }
  }

  lemma {:induction false} SuffixesAreClean(s: string, st: seq<Prod>)
    requires st != []
    ensures Clean(ReadSuffixes(s, st))
    decreases |s|, 6
  {
    SuffixIsClean(s, st);
    var r := ReadSuffix(s, st);
    if r.Ok? {
      SuffixesAreClean(r.rest, r.stack);
    }
  }

  lemma {:induction false} SuffixIsClean(s: string, st: seq<Prod>)
    requires st != []
    ensures Clean(ReadSuffix(s, st))
    decreases |s|, 4
  {
    var bracket, parenthesis := ReadText("[", s), ReadText("(", s);
    if bracket.Just? {
      ExprSpills(bracket.value, st);
      var r := ReadExpr(bracket.value, st);
      if r.Ok? && r.spilled > 0 {
        OperatorCloses(r.rest);
      }
    } else if parenthesis.Just? {
      ArgumentsSpill(parenthesis.value, st);
      var r := ReadArguments(parenthesis.value, st);
      if r.Ok? && r.spilled > 0 {
        OperatorCloses(r.rest);
      }
    }
  }

  lemma {:induction false} ArgumentsSpill(s: string, st: seq<Prod>)
    ensures SpillsAtOperator(ReadArguments(s, st))
    decreases |s|, 31
  {
    ExprSpills(s, st);
    var r := ReadExpr(s, st);
    if r.Ok? {
      var next := Collect(r.stack + [List([])]);
      if r.spilled > 0 {
        OperatorCloses(r.rest);
      } else {
        MoreArgumentsSpill(r.rest, next);
      }
    }
  }

  lemma {:induction false} MoreArgumentsSpill(s: string, st: seq<Prod>)
    requires st != []
    ensures SpillsAtOperator(ReadMoreArguments(s, st))
    decreases |s|
  {
    var t := ReadText(",", s);
    if t.Just? {
      ExprSpills(t.value, st);
      var r := ReadExpr(t.value, st);
      if r.Ok? {
        if r.spilled > 0 {
          OperatorCloses(r.rest);
        } else {
          MoreArgumentsSpill(r.rest, Collect(r.stack));
        }
      }
    }
  }

  // ---------- main result ----------

  /** Where reading leaves operands behind, it stops before an operator; so if the input is
    * read to its end, the stack has become deeper by one, and its top is an expression that
    * reading can build. */
  lemma AcceptedLeavesOneOperand(s: string, st: seq<Prod>)
    ensures var r := ReadExpr(s, st);
      && (r.Ok? && r.spilled > 0 ==> AtOperator(r.rest))
      && (r.Ok? && Skip(r.rest) == "" ==> r.spilled == 0 && exists p :: Built(p) && r.stack == st + [p])
  {
    var r := ReadExpr(s, st);
    ExprSpills(s, st);
    ExprBuilds(s, st);
    if r.Ok? && Skip(r.rest) == "" {
      var p := r.stack[|st|];
      assert r.stack == st + [p];
    }
  }
}
