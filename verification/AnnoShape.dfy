/** Which expressions reading can build. */
module AnnoShape {
  import opened AnnoTree
  import opened AnnoGrammar
  import opened AnnoRoundTrip

  predicate Built(t: Prod)
    decreases t, 0
  {
    match t
    case Variable(x) => Name(x) && !("true" <= x) && !("false" <= x)
    case Builtin(x) => Name(x)
    case NamedConst(x) => Name(x)
    case List(_) => false
    case Binary(op, l, r) =>
      if op.CALL? then Built(l) && BuiltArguments(r)
      else if IsMember(op) then Built(l) && r.Variable? && Name(r.name)
      else !op.RSH? && Built(l) && Built(r)
    case Unary(_, e) => Built(e)
    case _ => true
  }

  predicate BuiltArguments(t: Prod)
    decreases t, 1
  {
    t.List? && t.items != [] && forall e | e in t.items :: Built(e)
  }

  predicate IsMember(op: BinOp) {
    op.PROPERTY? || op.INDIR_PROPERTY?
  }

  /** Without spilling, the operand on top is one that can be built. */
  ghost predicate TopBuilt(r: Result) {
    r.Ok? && r.spilled == 0 ==> r.stack != [] && Built(r.stack[|r.stack| - 1])
  }

  ghost predicate TopArguments(r: Result) {
    r.Ok? && r.spilled == 0 ==> r.stack != [] && BuiltArguments(r.stack[|r.stack| - 1])
  }

  // ---------- operands without parts ----------

  lemma {:induction false} NameMatched(s: string)
    requires MatchIdentifier(s).Match?
    ensures Name(s[..MatchIdentifier(s).len])
  {
    var n := MatchIdentifier(s).len;
    assert forall i | 1 <= i < n :: s[i] == s[1..][i - 1];
  }

  lemma MarkedName(mark: char, s: string)
    requires MatchMarked(mark, s).Match?
    ensures Name(s[1..MatchMarked(mark, s).len])
  {
    NameMatched(s[1..]);
    var n := MatchMarked(mark, s).len;
    assert s[1..][..n - 1] == s[1..n];
  }

  lemma WordBuilds(t: string, st: seq<Prod>)
    ensures TopBuilt(ReadWord(t, st))
  {
    if MatchBoolean(t).NoMatch? {
      if MatchIdentifier(t).Match? {
        NameMatched(t);
        var x := t[..MatchIdentifier(t).len];
        assert x <= t;
      } else if MatchMarked('\\', t).Match? {
        MarkedName('\\', t);
      } else if MatchMarked('@', t).Match? {
        MarkedName('@', t);
      }
    }
  }

  lemma PrimitiveBuilds(s: string, st: seq<Prod>)
    ensures TopBuilt(ReadPrimitive(s, st))
  {
    WordBuilds(Skip(s), st);
  }

  // ---------- the cascade ----------

  lemma {:induction false} ExprBuilds(s: string, st: seq<Prod>)
    ensures TopBuilt(ReadExpr(s, st))
    decreases |s|, 30
  {
    LevelBuilds(0, s, st);
  }

  lemma {:induction false} LevelBuilds(level: nat, s: string, st: seq<Prod>)
    requires level <= LEVELS
    ensures TopBuilt(ReadLevel(level, s, st))
    decreases |s|, 10 + LEVELS - level
  {
    if level == LEVELS {
      UnaryBuilds(UNARY_OPERATORS, s, st);
    } else {
      LevelBuilds(level + 1, s, st);
      var r := ReadLevel(level + 1, s, st);
      if r.Ok? && r.spilled == 0 {
        OperatorsBuild(level, r.rest, r.stack);
      }
    }
  }

  lemma {:induction false} OperatorsBuild(level: nat, s: string, st: seq<Prod>)
    requires level < LEVELS && st != [] && Built(st[|st| - 1])
    ensures TopBuilt(ReadOperators(level, s, st))
    decreases |s|, 5
  {
    OperatorBuilds(level, Operators(level), s, st);
    var r := ReadOperator(level, Operators(level), s, st);
    if r.Ok? && r.spilled == 0 {
      OperatorsBuild(level, r.rest, r.stack);
    }
  }

  predicate PlainOperator(o: Infix) {
    (IsInfix(o.op) || o.op.IMPLIES?) && !o.op.RSH?
  }

  lemma {:induction false} OperatorBuilds(level: nat, ops: seq<Infix>, s: string, st: seq<Prod>)
    requires level < LEVELS && st != [] && Built(st[|st| - 1])
    requires forall o | o in ops :: o.text != [] && PlainOperator(o)
    ensures TopBuilt(ReadOperator(level, ops, s, st))
    decreases |s|, 4, |ops|
  {
    if ops != [] {
      var t := ReadText(ops[0].text, s);
      assert ops[0] in ops;
      if t.Just? {
        LevelBuilds(level + 1, t.value, st);
        var r := ReadLevel(level + 1, t.value, st);
        if r.Fail? && r.stack == st {
          OperatorBuilds(level, ops[1..], s, st);
        } else if r.Ok? {
          ReduceBuilds(ops[0].op, r, st);
        }
      } else {
        OperatorBuilds(level, ops[1..], s, st);
      }
    }
  }

  /** Reducing takes the operand that was on top and the one that has been read. */
  lemma ReduceBuilds(op: BinOp, r: Result, st: seq<Prod>)
    requires st != [] && Built(st[|st| - 1]) && r.Ok? && st <= r.stack && |r.stack| == |st| + 1 + r.spilled
    requires r.spilled == 0 ==>
      var q := r.stack[|r.stack| - 1];
      if op.CALL? then BuiltArguments(q)
      else if IsMember(op) then q.Variable? && Name(q.name)
      else !op.RSH? && Built(q)
    ensures TopBuilt(Reduce(op, r))
  {
    if r.spilled == 0 {
      assert r.stack[|st| - 1] == st[|st| - 1];
    }
  }

  lemma {:induction false} UnaryBuilds(ops: seq<(string, UnOp)>, s: string, st: seq<Prod>)
    requires forall o | o in ops :: o.0 != []
    ensures TopBuilt(ReadUnary(ops, s, st))
    decreases |s|, 9, |ops|
  {
    if ops == [] {
      PostfixBuilds(s, st);
    } else {
      var t := ReadText(ops[0].0, s);
      assert ops[0] in ops;
      if t.Just? {
        PostfixBuilds(t.value, st);
        var r := ReadPostfix(t.value, st);
        if r.Fail? && r.stack == st {
          UnaryBuilds(ops[1..], s, st);
        }
      } else {
        UnaryBuilds(ops[1..], s, st);
      }
    }
  }

  lemma {:induction false} PostfixBuilds(s: string, st: seq<Prod>)
    ensures TopBuilt(ReadPostfix(s, st))
    decreases |s|, 8
  {
    AtomBuilds(s, st);
    var r := ReadAtom(s, st);
    if r.Ok? && r.spilled == 0 {
      SuffixesBuild(r.rest, r.stack);
    }
  }

  lemma {:induction false} AtomBuilds(s: string, st: seq<Prod>)
    ensures TopBuilt(ReadAtom(s, st))
    decreases |s|, 7
  {
    PrimitiveBuilds(s, st);
    var t := ReadText("(", s);
    if t.Just? {
      ExprBuilds(t.value, st);
    }
  }

  lemma {:induction false} SuffixesBuild(s: string, st: seq<Prod>)
    requires st != [] && Built(st[|st| - 1])
    ensures TopBuilt(ReadSuffixes(s, st))
    decreases |s|, 6
  {
    SuffixBuilds(s, st);
    var r := ReadSuffix(s, st);
    if r.Ok? && r.spilled == 0 {
      SuffixesBuild(r.rest, r.stack);
    }
  }

  lemma {:induction false} SuffixBuilds(s: string, st: seq<Prod>)
    requires st != [] && Built(st[|st| - 1])
    ensures TopBuilt(ReadSuffix(s, st))
    decreases |s|, 4
  {
    var bracket, parenthesis := ReadText("[", s), ReadText("(", s);
    if bracket.Just? {
      ExprBuilds(bracket.value, st);
      var r := ReadExpr(bracket.value, st);
      if r.Ok? && ReadText("]", r.rest).Just? {
        ReduceBuilds(INDEX, Ok(ReadText("]", r.rest).value, r.stack, r.spilled), st);
      }
    } else if parenthesis.Just? {
      ArgumentsBuild(parenthesis.value, st);
      var r := ReadArguments(parenthesis.value, st);
      if r.Ok? && ReadText(")", r.rest).Just? {
        ReduceBuilds(CALL, Ok(ReadText(")", r.rest).value, r.stack, r.spilled), st);
      }
    } else {
      MemberBuilds(".", PROPERTY, s, st);
      MemberBuilds("->", INDIR_PROPERTY, s, st);
    }
  }

  lemma MemberBuilds(text: string, op: BinOp, s: string, st: seq<Prod>)
    requires st != [] && Built(st[|st| - 1]) && text != [] && IsMember(op)
    ensures TopBuilt(ReadMember(text, op, s, st))
  {
    var t := ReadText(text, s);
    if t.Just? {
      var u := Skip(t.value);
      if MatchIdentifier(u).Match? {
        NameMatched(u);
        ReduceBuilds(op, ReadVariable(t.value, st), st);
      }
    }
  }

  lemma {:induction false} ArgumentsBuild(s: string, st: seq<Prod>)
    ensures TopArguments(ReadArguments(s, st))
    decreases |s|, 31
  {
    ExprBuilds(s, st);
    var r := ReadExpr(s, st);
    if r.Ok? && r.spilled == 0 {
      var p := r.stack[|r.stack| - 1];
      var next := Collect(r.stack + [List([])]);
      assert next[|next| - 1] == List([p] + []);
      MoreArgumentsBuild(r.rest, next);
    }
  }

  lemma {:induction false} MoreArgumentsBuild(s: string, st: seq<Prod>)
    requires st != [] && BuiltArguments(st[|st| - 1])
    ensures TopArguments(ReadMoreArguments(s, st))
    decreases |s|
  {
    var t := ReadText(",", s);
    if t.Just? {
      ExprBuilds(t.value, st);
      var r := ReadExpr(t.value, st);
      if r.Ok? && r.spilled == 0 {
        CollectedBuilds(r.stack, st);
        MoreArgumentsBuild(r.rest, Collect(r.stack));
      }
    }
  }

  lemma CollectedBuilds(after: seq<Prod>, st: seq<Prod>)
    requires st != [] && st <= after && |after| == |st| + 1
    requires BuiltArguments(st[|st| - 1]) && Built(after[|st|])
    ensures Collect(after) != [] && BuiltArguments(Collect(after)[|st| - 1])
  {
    var items := st[|st| - 1].items;
    assert after[|st| - 1] == st[|st| - 1];
    assert Collect(after)[|st| - 1] == List(items + [after[|st|]]);
  }
}
