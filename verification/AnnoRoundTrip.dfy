/** Reading back what the printer prints. */
module AnnoRoundTrip {
  import opened AnnoTree
  import opened AnnoGrammar

  // ---------- the trees that read back ----------

  predicate Name(x: string) {
    x != [] && IsIdent1(x[0]) && forall i | 0 <= i < |x| :: IsIdent2(x[i])
  }

  /** Operators that print as themselves between their operands. */
  predicate IsInfix(op: BinOp) {
    !op.CALL? && !op.INDEX? && !op.PROPERTY? && !op.INDIR_PROPERTY? && !op.IMPLIES?
  }

  predicate Printable(t: Prod)
    decreases t, 1
  {
    match t
    case IntConst(n) => 0 <= n < LITERALS
    case Variable(x) => Name(x) && !("true" <= x) && !("false" <= x)
    case Builtin(x) => Name(x)
    case NamedConst(x) => Name(x)
    case Binary(op, l, r) =>
      if IsInfix(op) then Printable(l) && Printable(r)
      else if op.CALL? then Printable(l) && !l.Unary? && r.List? && r.items != [] && AllPrintable(r.items)
      else if op.INDEX? then Printable(l) && !l.Unary? && Printable(r)
      else if op.PROPERTY? then Printable(l) && !l.Unary? && !l.IntConst? && r.Variable? && Name(r.name)
      else if op.INDIR_PROPERTY? then Printable(l) && !l.Unary? && r.Variable? && Name(r.name)
      else false
    case Unary(op, e) => !op.LOAD? && Printable(e) && !e.Unary?
    case _ => false
  }

  predicate AllPrintable(ts: seq<Prod>)
    decreases ts, 0
  {
    ts == [] || (Printable(ts[0]) && AllPrintable(ts[1..]))
  }

  /** Literals from here on are refused. */
  const LITERALS: nat := 0x8000_0000_0000_0000

  /** What comes back: every right shift has become a left shift, and literals are cut to 32
    * bits. */
  function Reparse(t: Prod): Prod
    decreases t, 1
  {
    match t
    case IntConst(n) => if n >= 0 then IntConst(ToInt32(n)) else t
    case Binary(op, l, r) => Binary(Reop(op), Reparse(l), Reparse(r))
    case Unary(op, e) => Unary(op, Reparse(e))
    case List(items) => List(ReparseAll(items))
    case _ => t
  }

  function Reop(op: BinOp): BinOp {
    if op.RSH? then LSH else op
  }

  function ReparseAll(ts: seq<Prod>): (r: seq<Prod>)
    ensures |r| == |ts|
    decreases ts, 0
  {
    if ts == [] then [] else [Reparse(ts[0])] + ReparseAll(ts[1..])
  }

  // ---------- lexemes ----------

  predicate Ends(k: string) {
    k == [] || !IsIdent2(k[0])
  }

  lemma {:induction false} SpanOf(p: char -> bool, x: string, k: string)
    requires forall i | 0 <= i < |x| :: p(x[i])
    requires k == [] || !p(k[0])
    ensures Span(p, x + k) == |x|
  {
    if x == [] {
      assert x + k == k;
    } else {
      assert (x + k)[0] == x[0] && (x + k)[1..] == x[1..] + k;
      SpanOf(p, x[1..], k);
    }
  }

  lemma {:induction false} DecimalDigits(n: nat)
    ensures Decimal(n) != [] && forall i | 0 <= i < |Decimal(n)| :: IsDigit(Decimal(n)[i])
    ensures Decimal(n)[0] == '0' ==> n == 0
    ensures Number(10, Decimal(n)) == n
  {
    DigitOf(n % 10);
    if n >= 10 {
      DecimalDigits(n / 10);
      var d := Decimal(n);
      assert d[..|d| - 1] == Decimal(n / 10);
    } else {
      var d := Decimal(n);
      assert d[..0] == [];
      assert Number(10, d[..0]) == 0;
    }
  }

  lemma DigitOf(d: nat)
    requires d < 10
    ensures IsDigit(Digit(d)) && DigitValue(Digit(d)) == d
    ensures Digit(d) == '0' ==> d == 0
  {
  }

  lemma CastOf(n: nat)
    ensures CastInteger(Decimal(n)) == if n < LITERALS then Just(ToInt32(n)) else Nothing
  {
    DecimalDigits(n);
    if n == 0 {
      assert Number(10, "0") == 0;
    } else {
      CastDecimal(Decimal(n));
    }
  }

  lemma CastDecimal(s: string)
    requires s != [] && s[0] != '0'
    ensures CastInteger(s) == if Number(10, s) < LITERALS then Just(ToInt32(Number(10, s))) else Nothing
  {
    assert !("0x" <= s) && !("0" <= s);
  }

  lemma MatchIntegerOf(n: nat, k: string)
    requires Ends(k)
    ensures MatchInteger(Decimal(n) + k) == Match(|Decimal(n)|)
  {
    DecimalDigits(n);
    if n == 0 {
      MatchZero(k);
    } else {
      MatchDigits(Decimal(n), k);
    }
  }

  lemma MatchDigits(d: string, k: string)
    requires d != [] && d[0] != '0' && (forall i | 0 <= i < |d| :: IsDigit(d[i])) && Ends(k)
    ensures MatchInteger(d + k) == Match(|d|)
  {
    SpanOf(IsDigit, d[1..], k);
    assert (d + k)[1..] == d[1..] + k;
  }

  lemma MatchZero(k: string)
    requires Ends(k)
    ensures MatchInteger("0" + k) == Match(1)
  {
    var s := "0" + k;
    assert s[1..] == k && (k == [] || s[1] == k[0]);
    assert Span(IsOctal, k) == 0;
  }

  lemma ReadsInt(n: nat, k: string, st: seq<Prod>)
    requires Ends(k) && (k == [] || k[0] != '.')
    ensures ReadPrimitive(Decimal(n) + k, st)
      == if n < LITERALS then Ok(Skip(k), st + [IntConst(ToInt32(n))], 0) else Abort
  {
    var d := Decimal(n);
    var s := d + k;
    DecimalDigits(n);
    SpanOf(IsDigit, d, k);
    assert s[|d|..] == k && s[..|d|] == d;
    assert !IsSpace(s[0]) && Skip(s) == s;
    assert MatchExponent(k) == NoMatch;
    assert MatchFloating(s) == NoMatch;
    MatchIntegerOf(n, k);
    CastOf(n);
  }

  lemma MatchName(x: string, k: string)
    requires Name(x) && Ends(k)
    ensures MatchIdentifier(x + k) == Match(|x|)
    ensures (x + k)[..|x|] == x && (x + k)[|x|..] == k && Skip(x + k) == x + k
  {
    assert (x + k)[1..] == x[1..] + k;
    SpanOf(IsIdent2, x[1..], k);
  }

  lemma NotNumeric(s: string)
    requires s != [] && !IsDigit(s[0]) && s[0] != '.'
    ensures MatchFloating(s) == NoMatch && MatchInteger(s) == NoMatch
  {
  }

  lemma NotBoolean(x: string, k: string)
    requires Name(x) && Ends(k) && !("true" <= x) && !("false" <= x)
    ensures MatchBoolean(x + k) == NoMatch
  {
    var s := x + k;
    NotKeyword("true", x, k);
    NotKeyword("false", x, k);
  }

  lemma NotKeyword(word: string, x: string, k: string)
    requires Ends(k) && !(word <= x)
    requires forall i | 0 <= i < |word| :: IsIdent2(word[i])
    ensures !(word <= x + k)
  {
    var s := x + k;
    assert |x| < |s| ==> s[|x|] == k[0];
    assert |word| <= |x| ==> s[..|word|] == x[..|word|];
  }

  lemma ReadsVariable(x: string, k: string, st: seq<Prod>)
    requires Name(x) && Ends(k)
    ensures ReadVariable(x + k, st) == Ok(Skip(k), st + [Variable(x)], 0)
    ensures !("true" <= x) && !("false" <= x) ==>
      ReadPrimitive(x + k, st) == Ok(Skip(k), st + [Variable(x)], 0)
  {
    MatchName(x, k);
    NotNumeric(x + k);
    if !("true" <= x) && !("false" <= x) {
      NotBoolean(x, k);
    }
  }

  lemma ReadsMarked(mark: char, x: string, k: string, st: seq<Prod>)
    requires Name(x) && Ends(k) && (mark == '\\' || mark == '@')
    ensures ReadPrimitive([mark] + x + k, st)
      == Ok(Skip(k), st + [if mark == '\\' then Builtin(x) else NamedConst(x)], 0)
  {
    var s := [mark] + x + k;
    var n := 1 + |x|;
    assert Skip(s) == s;
    NotNumeric(s);
    MatchesMarked(mark, x, k);
    assert s[..n] == [mark] + x && s[1..n] == x && s[n..] == k;
    assert ReadWord(s, st) == Ok(Skip(k), st + [if mark == '\\' then Builtin(x) else NamedConst(x)], 0);
  }

  lemma MatchesMarked(mark: char, x: string, k: string)
    requires Name(x) && Ends(k) && (mark == '\\' || mark == '@')
    ensures var s := [mark] + x + k;
      && MatchBoolean(s) == NoMatch && MatchIdentifier(s) == NoMatch
      && MatchMarked(mark, s) == Match(1 + |x|)
      && forall other | other != mark :: MatchMarked(other, s) == NoMatch
  {
    var s := [mark] + x + k;
    assert s[0] == mark && s[1..] == x + k;
    MatchName(x, k);
    assert !("true" <= s) && !("false" <= s);
  }

  // ---------- what an expression can and cannot begin with ----------

  /** Printed expressions begin with one of these. */
  predicate Starter(c: char) {
    IsIdent2(c) || c == '\\' || c == '@' || c == '(' || c == '-' || c == '!' || c == '~'
  }

  lemma {:induction false} PrintStarts(t: Prod)
    requires Printable(t)
    ensures Print(t) != [] && Starter(Print(t)[0])
    ensures !t.Unary? ==> Print(t)[0] != '-' && Print(t)[0] != '!' && Print(t)[0] != '~'
    decreases t
  {
    match t
    case IntConst(n) => DecimalDigits(n);
    case Binary(op, l, r) =>
      if !IsInfix(op) {
        PrintStarts(l);
        assert Print(t)[0] == Print(l)[0];
      }
    case _ =>
  }

  /** No operand begins with this. */
  predicate Foreign(c: char) {
    !Starter(c) && c != '*' && c != '.' && !IsSpace(c)
  }

  lemma {:induction false} NoOperand(level: nat, s: string, st: seq<Prod>)
    requires level <= LEVELS && s != [] && Foreign(s[0])
    ensures ReadLevel(level, s, st) == Fail(st)
    decreases LEVELS - level
  {
    if level < LEVELS {
      NoOperand(level + 1, s, st);
    } else {
      assert Skip(s) == s;
      NotNumeric(s);
      assert ReadPrimitive(s, st) == Fail(st);
      assert ReadPostfix(s, st) == Fail(st);
      var u := UNARY_OPERATORS;
      assert ReadUnary(u[4..], s, st) == Fail(st);
      assert u[3..][1..] == u[4..] && ReadUnary(u[3..], s, st) == Fail(st);
      assert u[2..][1..] == u[3..] && ReadUnary(u[2..], s, st) == Fail(st);
      assert u[1..][1..] == u[2..] && ReadUnary(u[1..], s, st) == Fail(st);
    }
  }

  // ---------- what stops the operator loops ----------

  /** No operator of this level continues an operand here. */
  ghost predicate Quiet(level: nat, s: string)
    requires level < LEVELS
  {
    forall st: seq<Prod> | st != [] :: ReadOperator(level, Operators(level), s, st) == Fail(st)
  }

  lemma {:induction false} NoneMatches(level: nat, ops: seq<Infix>, s: string, st: seq<Prod>)
    requires level < LEVELS && st != []
    requires forall o | o in ops :: o.text != []
    requires forall i | 0 <= i < |ops| :: !(ops[i].text <= Skip(s))
    ensures ReadOperator(level, ops, s, st) == Fail(st)
    decreases |ops|
  {
    if ops != [] {
      assert forall i | 0 <= i < |ops[1..]| :: ops[1..][i] == ops[i + 1];
      NoneMatches(level, ops[1..], s, st);
    }
  }

  /** The texts of the operators, each with its level and its place there. */
  predicate IsOperator(level: nat, i: nat, text: string) {
    match level
    case 0 => i == 0 && text == "==>"
    case 1 => i == 0 && text == "||"
    case 2 => i == 0 && text == "&&"
    case 3 => i == 0 && text == "|"
    case 4 => i == 0 && text == "^"
    case 5 => i == 0 && text == "&"
    case 6 => (i == 0 && text == "==") || (i == 1 && text == "!=")
    case 7 => (i == 0 && text == ">=") || (i == 1 && text == ">") || (i == 2 && text == "<=") || (i == 3 && text == "<")
    case 8 => (i == 0 && text == "<<") || (i == 1 && text == ">>")
    case 9 => (i == 0 && text == "+") || (i == 1 && text == "-")
    case 10 => (i == 0 && text == "*") || (i == 1 && text == "/") || (i == 2 && text == "%")
    case _ => false
  }

  lemma OperatorAt(level: nat, i: nat)
    requires level < LEVELS && i < |Operators(level)|
    ensures IsOperator(level, i, Operators(level)[i].text)
  {
    match level
    case 0 =>
    case 1 =>
    case 2 =>
    case 3 =>
    case 4 =>
    case 5 =>
    case 6 =>
    case 7 =>
    case 8 =>
    case 9 =>
    case _ =>
  }

  /** No operator begins with a letter, a digit, a bracket, a comma or a question mark. */
  predicate OperatorStart(c: char) {
    c == '=' || c == '|' || c == '&' || c == '^' || c == '!' || c == '>' || c == '<'
    || c == '+' || c == '-' || c == '*' || c == '/' || c == '%'
  }

  lemma OperatorStarts(level: nat, s: string)
    requires level < LEVELS && (s == [] || !OperatorStart(s[0]))
    ensures forall i | 0 <= i < |Operators(level)| :: !(Operators(level)[i].text <= s)
  {
    forall i | 0 <= i < |Operators(level)|
      ensures !(Operators(level)[i].text <= s)
    {
      OperatorAt(level, i);
      TextStarts(level, i, Operators(level)[i].text);
    }
  }

  lemma TextStarts(level: nat, i: nat, text: string)
    requires IsOperator(level, i, text)
    ensures text != [] && OperatorStart(text[0])
  {
  }

  /** No operator is read where none starts. */
  lemma QuietBeforeNone(level: nat, s: string)
    requires level < LEVELS && Skip(s) == s && (s == [] || !OperatorStart(s[0]))
    ensures Quiet(level, s)
  {
    forall st: seq<Prod> | st != []
      ensures ReadOperator(level, Operators(level), s, st) == Fail(st)
    {
      OperatorStarts(level, s);
      NoneMatches(level, Operators(level), s, st);
    }
  }

  predicate Closes(s: string) {
    s == [] || s[0] == ')' || s[0] == ']' || s[0] == ','
  }

  lemma QuietAtClose(level: nat, s: string)
    requires level < LEVELS && Closes(s)
    ensures Quiet(level, s)
  {
    QuietBeforeNone(level, s);
  }

  function OpLevel(op: BinOp): nat
    requires IsInfix(op)
  {
    match op
    case LOR => 1
    case LAND => 2
    case BOR => 3
    case XOR => 4
    case BAND => 5
    case EQ => 6
    case NE => 6
    case GE => 7
    case GT => 7
    case LE => 7
    case LT => 7
    case LSH => 8
    case RSH => 8
    case PLUS => 9
    case MINUS => 9
    case _ => 10
  }

  /** The place of the operator among those of its level. */
  function OpIndex(op: BinOp): (n: nat)
    requires IsInfix(op)
    ensures n < |Operators(OpLevel(op))|
  {
    match op
    case NE => 1
    case GT => 1
    case LE => 2
    case LT => 3
    case RSH => 1
    case MINUS => 1
    case DIV => 1
    case MOD => 2
    case _ => 0
  }

  lemma OpTextShape(op: BinOp, x: string)
    requires IsInfix(op)
    ensures var s := OpText(op) + " " + x;
      && |s| >= 2 && s[0] == OpText(op)[0] && !IsSpace(s[0])
      && s[1] == SecondChar(op)
      && |OpText(op)| <= 2 && (|OpText(op)| == 2 ==> |s| >= 3 && s[2] == ' ')
  {
  }

  /** Between the levels of two operators only '&' against '&&' and '|' against '||' match. */
  lemma OpQuietAbove(op: BinOp, x: string, level: nat)
    requires IsInfix(op) && OpLevel(op) < level < LEVELS
    ensures Quiet(level, OpText(op) + " " + x)
  {
    var s := OpText(op) + " " + x;
    OpTextShape(op, x);
    assert Skip(s) == s;
    forall st: seq<Prod> | st != []
      ensures ReadOperator(level, Operators(level), s, st) == Fail(st)
    {
      if (op.LAND? && level == 5) || (op.LOR? && level == 3) {
        var ops := Operators(level);
        var t := s[1..];
        assert ops[0].text <= s && t[0] == s[0] && Skip(t) == t;
        assert ReadText(ops[0].text, s) == Just(t);
        NoOperand(level + 1, t, st);
        assert ops[1..] == [];
      } else {
        NoPrefix(op, s, level);
        NoneMatches(level, Operators(level), s, st);
      }
    }
  }

  /** The text of the operator goes on with this character. */
  function SecondChar(op: BinOp): char
    requires IsInfix(op)
  {
    if |OpText(op)| == 1 then ' ' else OpText(op)[1]
  }

  lemma NoPrefix(op: BinOp, s: string, level: nat)
    requires IsInfix(op) && OpLevel(op) < level < LEVELS
    requires |s| >= 2 && s[0] == OpText(op)[0] && s[1] == SecondChar(op)
    requires !(op.LAND? && level == 5) && !(op.LOR? && level == 3)
    ensures forall i | 0 <= i < |Operators(level)| :: !(Operators(level)[i].text <= s)
  {
    forall i | 0 <= i < |Operators(level)|
      ensures !(Operators(level)[i].text <= s)
    {
      OperatorAt(level, i);
      TighterIsOther(op, level, i, Operators(level)[i].text);
    }
  }

  lemma TighterIsOther(op: BinOp, level: nat, i: nat, text: string)
    requires IsInfix(op) && OpLevel(op) < level && IsOperator(level, i, text)
    requires !(op.LAND? && level == 5) && !(op.LOR? && level == 3)
    ensures text[0] != OpText(op)[0] || (|text| == 2 && text[1] != SecondChar(op))
  {
  }

  /** At its own level an operator is read as itself, a right shift as a left shift. */
  lemma OpReads(op: BinOp, x: string, st: seq<Prod>)
    requires IsInfix(op) && st != []
    ensures var s := OpText(op) + " " + x;
      var r := ReadLevel(OpLevel(op) + 1, Skip(x), st);
      r.Ok? ==> ReadOperator(OpLevel(op), Operators(OpLevel(op)), s, st) == Reduce(Reop(op), r)
  {
    var s := OpText(op) + " " + x;
    var level := OpLevel(op);
    var ops := Operators(level);
    var n := OpIndex(op);
    OpTextShape(op, x);
    assert Skip(s) == s;
    OwnOperator(op, s);
    SkipOthers(level, ops, n, s, st);
    OpTextReads(op, x);
    assert ops[n..][0] == Infix(OpText(op), Reop(op));
  }

  lemma OpTextReads(op: BinOp, x: string)
    requires IsInfix(op)
    ensures ReadText(OpText(op), OpText(op) + " " + x) == Just(Skip(x))
  {
    var text := OpText(op);
    var s := text + " " + x;
    OpTextShape(op, x);
    assert Skip(s) == s;
    assert s[|text|..] == " " + x && (" " + x)[1..] == x;
    assert text <= s;
  }

  lemma OwnOperator(op: BinOp, s: string)
    requires IsInfix(op)
    requires |s| >= 2 && s[0] == OpText(op)[0] && s[1] == SecondChar(op)
    ensures Operators(OpLevel(op))[OpIndex(op)] == Infix(OpText(op), Reop(op))
    ensures forall i | 0 <= i < OpIndex(op) :: !(Operators(OpLevel(op))[i].text <= s)
  {
    OwnEntry(op);
    forall i | 0 <= i < OpIndex(op)
      ensures !(Operators(OpLevel(op))[i].text <= s)
    {
      OperatorAt(OpLevel(op), i);
      EarlierIsOther(op, i, Operators(OpLevel(op))[i].text);
    }
  }

  lemma OwnEntry(op: BinOp)
    requires IsInfix(op)
    ensures Operators(OpLevel(op))[OpIndex(op)] == Infix(OpText(op), Reop(op))
  {
  }

  lemma EarlierIsOther(op: BinOp, i: nat, text: string)
    requires IsInfix(op) && i < OpIndex(op) && IsOperator(OpLevel(op), i, text)
    ensures text[0] != OpText(op)[0] || (|text| == 2 && text[1] != SecondChar(op))
  {
  }

  lemma {:induction false} SkipOthers(level: nat, ops: seq<Infix>, n: nat, s: string, st: seq<Prod>)
    requires level < LEVELS && st != [] && n < |ops|
    requires forall o | o in ops :: o.text != []
    requires forall i | 0 <= i < n :: !(ops[i].text <= Skip(s))
    ensures ReadOperator(level, ops, s, st) == ReadOperator(level, ops[n..], s, st)
    decreases n
  {
    if n > 0 {
      assert forall i | 0 <= i < n - 1 :: ops[1..][i] == ops[i + 1];
      SkipOthers(level, ops[1..], n - 1, s, st);
      assert ops[1..][n - 1..] == ops[n..];
    }
  }

  /** No suffix continues an operand here. */
  predicate NoSuffix(s: string) {
    && (s == [] || (s[0] != '[' && s[0] != '(' && s[0] != '.'))
    && (|s| < 2 || s[0] != '-' || s[1] != '>')
  }

  lemma SuffixesStop(s: string, st: seq<Prod>)
    requires st != [] && NoSuffix(s) && Skip(s) == s
    ensures ReadSuffixes(s, st) == Ok(s, st, 0)
  {
    assert ReadText("[", s) == Nothing && ReadText("(", s) == Nothing && ReadText(".", s) == Nothing;
    assert ReadText("->", s) == Nothing;
  }

  /** What is read at an inner level is read at every outer level whose operators are quiet. */
  lemma {:induction false} Outward(outer: nat, inner: nat, s: string, rest: string, st: seq<Prod>, p: Prod)
    requires outer <= inner <= LEVELS
    requires ReadLevel(inner, s, st) == Ok(rest, st + [p], 0)
    requires forall m | outer <= m < inner :: Quiet(m, rest)
    ensures ReadLevel(outer, s, st) == Ok(rest, st + [p], 0)
    decreases inner - outer
  {
    if outer < inner {
      Outward(outer + 1, inner, s, rest, st, p);
      QuietEnds(outer, rest, st + [p]);
    }
  }

  lemma QuietEnds(level: nat, rest: string, st: seq<Prod>)
    requires level < LEVELS && st != [] && Quiet(level, rest)
    ensures ReadOperators(level, rest, st) == Ok(rest, st, 0)
  {
    assert ReadOperator(level, Operators(level), rest, st) == Fail(st);
  }

  // ---------- reading back ----------

  lemma SkipStarter(s: string)
    requires s != [] && Starter(s[0])
    ensures Skip(s) == s
  {
  }

  /** An operand that is not unary is read, and then its suffixes are looked for. */
  lemma {:induction false} PostfixReads(t: Prod, k: string, st: seq<Prod>)
    requires Printable(t) && !t.Unary? && Ends(k) && (t.IntConst? ==> k == [] || k[0] != '.')
    ensures ReadPostfix(Print(t) + k, st) == ReadSuffixes(Skip(k), st + [Reparse(t)])
    decreases t, 2
  {
    match t
    case IntConst(n) => ReadsInt(n, k, st);
    case Variable(x) => ReadsVariable(x, k, st);
    case Builtin(x) => ReadsMarked('\\', x, k, st);
    case NamedConst(x) => ReadsMarked('@', x, k, st);
    case Binary(op, l, r) =>
      if IsInfix(op) {
        ParenthesizedReads(t, k, st);
      } else if op.CALL? {
        CallPrints(t, k);
        CallReads(t, k, st);
      } else if op.INDEX? {
        IndexPrints(t, k);
        IndexReads(t, k, st);
      } else {
        MemberPrints(t, k);
        PostfixReads(l, MemberText(op) + r.name + k, st);
        MemberReads(op, r.name, k, st, Reparse(l));
      }
  }

  function MemberText(op: BinOp): string {
    if op.PROPERTY? then "." else "->"
  }

  lemma MemberPrints(t: Prod, k: string)
    requires t.Binary? && (t.op.PROPERTY? || t.op.INDIR_PROPERTY?) && t.r.Variable?
    ensures Print(t) + k == Print(t.l) + (MemberText(t.op) + t.r.name + k)
  {
  }

  lemma MemberReads(op: BinOp, x: string, k: string, st: seq<Prod>, p: Prod)
    requires Name(x) && Ends(k) && (op == PROPERTY || op == INDIR_PROPERTY)
    ensures var s := MemberText(op) + x + k;
      && Skip(s) == s
      && ReadSuffixes(s, st + [p]) == ReadSuffixes(Skip(k), st + [Binary(op, p, Variable(x))])
  {
    var s := MemberText(op) + x + k;
    assert s == MemberText(op) + (x + k);
    MemberTextReads(op, x + k);
    MemberSuffix(op, x, k, st, p);
  }

  lemma MemberSuffix(op: BinOp, x: string, k: string, st: seq<Prod>, p: Prod)
    requires Name(x) && Ends(k) && (op == PROPERTY || op == INDIR_PROPERTY)
    ensures ReadSuffix(MemberText(op) + (x + k), st + [p]) == Ok(Skip(k), st + [Binary(op, p, Variable(x))], 0)
  {
    var s := MemberText(op) + (x + k);
    MemberTextReads(op, x + k);
    OwnMember(op, x, k, s, st, p);
    assert op == INDIR_PROPERTY ==> ReadMember(".", PROPERTY, s, st + [p]) == Fail(st + [p]);
  }

  lemma OwnMember(op: BinOp, x: string, k: string, s: string, st: seq<Prod>, p: Prod)
    requires Name(x) && Ends(k) && (op == PROPERTY || op == INDIR_PROPERTY)
    requires ReadText(MemberText(op), s) == Just(Skip(x + k))
    ensures ReadMember(MemberText(op), op, s, st + [p]) == Ok(Skip(k), st + [Binary(op, p, Variable(x))], 0)
  {
    SkipStarter(x + k);
    ReadsVariable(x, k, st + [p]);
    ReduceTop(op, Skip(k), st, p, Variable(x));
  }

  lemma ReduceTop(op: BinOp, rest: string, st: seq<Prod>, p: Prod, q: Prod)
    ensures Reduce(op, Ok(rest, st + [p] + [q], 0)) == Ok(rest, st + [Binary(op, p, q)], 0)
  {
    var st2 := st + [p] + [q];
    assert st2[..|st2| - 2] == st && st2[|st2| - 2] == p && st2[|st2| - 1] == q;
  }

  lemma MemberTextReads(op: BinOp, x: string)
    requires op == PROPERTY || op == INDIR_PROPERTY
    ensures var s := MemberText(op) + x;
      && Skip(s) == s
      && ReadText("[", s) == Nothing && ReadText("(", s) == Nothing
      && ReadText(MemberText(op), s) == Just(Skip(x))
      && (op == INDIR_PROPERTY ==> ReadText(".", s) == Nothing)
  {
    var text := MemberText(op);
    var s := text + x;
    assert s[0] == text[0] && s[|text|..] == x && text <= s;
  }

  lemma TextReads(c: char, s: string)
    requires !IsSpace(c)
    ensures Skip([c] + s) == [c] + s
    ensures ReadText([c], [c] + s) == Just(Skip(s))
    ensures forall d | d != c :: ReadText([d], [c] + s) == Nothing
  {
    assert ([c] + s)[1..] == s;
    assert [c] <= [c] + s;
    forall d | d != c ensures !([d] <= [c] + s) {
      assert ([c] + s)[0] != [d][0];
    }
  }

  lemma IndexSuffix(s: string, k: string, st: seq<Prod>, p: Prod, q: Prod)
    requires Skip(s) == s && ReadExpr(s, st + [p]) == Ok("]" + k, st + [p] + [q], 0)
    ensures ReadSuffixes("[" + s, st + [p]) == ReadSuffixes(Skip(k), st + [Binary(INDEX, p, q)])
  {
    TextReads('[', s);
    TextReads(']', k);
    ReduceTop(INDEX, Skip(k), st, p, q);
    assert ReadSuffix("[" + s, st + [p]) == Ok(Skip(k), st + [Binary(INDEX, p, q)], 0);
  }

  lemma CallSuffix(s: string, k: string, st: seq<Prod>, p: Prod, q: Prod)
    requires Skip(s) == s && ReadArguments(s, st + [p]) == Ok(")" + k, st + [p] + [q], 0)
    ensures ReadSuffixes("(" + s, st + [p]) == ReadSuffixes(Skip(k), st + [Binary(CALL, p, q)])
  {
    TextReads('(', s);
    TextReads(')', k);
    ReduceTop(CALL, Skip(k), st, p, q);
    assert ReadSuffix("(" + s, st + [p]) == Ok(Skip(k), st + [Binary(CALL, p, q)], 0);
  }

  lemma {:induction false} IndexReads(t: Prod, k: string, st: seq<Prod>)
    requires t.Binary? && Printable(t.l) && !t.l.Unary? && Printable(t.r) && Ends(k)
    ensures ReadPostfix(Print(t.l) + ("[" + (Print(t.r) + ("]" + k))), st)
      == ReadSuffixes(Skip(k), st + [Binary(INDEX, Reparse(t.l), Reparse(t.r))])
    decreases t, 1
  {
    BaseReads(t.l, '[', Print(t.r) + ("]" + k), st);
    IndexOperandReads(t.r, k, st, Reparse(t.l));
  }

  /** The base is read, and the bracket is left. */
  lemma {:induction false} BaseReads(t: Prod, c: char, s: string, st: seq<Prod>)
    requires Printable(t) && !t.Unary? && (c == '[' || c == '(')
    ensures ReadPostfix(Print(t) + ([c] + s), st) == ReadSuffixes([c] + s, st + [Reparse(t)])
    decreases t, 3
  {
    PostfixReads(t, [c] + s, st);
    TextReads(c, s);
  }

  lemma {:induction false} IndexOperandReads(t: Prod, k: string, st: seq<Prod>, p: Prod)
    requires Printable(t) && Ends(k)
    ensures ReadSuffixes("[" + (Print(t) + ("]" + k)), st + [p])
      == ReadSuffixes(Skip(k), st + [Binary(INDEX, p, Reparse(t))])
    decreases t, 7
  {
    var s := Print(t) + ("]" + k);
    PrintStarts(t);
    SkipStarter(s);
    ExprReads(t, "]" + k, st + [p]);
    IndexSuffix(s, k, st, p, Reparse(t));
  }

  lemma IndexPrints(t: Prod, k: string)
    requires t.Binary? && t.op.INDEX?
    ensures Print(t) + k == Print(t.l) + ("[" + (Print(t.r) + ("]" + k)))
  {
  }

  lemma {:induction false} CallReads(t: Prod, k: string, st: seq<Prod>)
    requires t.Binary? && Printable(t.l) && !t.l.Unary? && Ends(k)
    requires t.r.List? && t.r.items != [] && AllPrintable(t.r.items)
    ensures ReadPostfix(Print(t.l) + ("(" + (PrintItems(t.r.items) + (")" + k))), st)
      == ReadSuffixes(Skip(k), st + [Binary(CALL, Reparse(t.l), List(ReparseAll(t.r.items)))])
    decreases t, 1
  {
    BaseReads(t.l, '(', PrintItems(t.r.items) + (")" + k), st);
    CallOperandsRead(t.r.items, k, st, Reparse(t.l));
  }

  lemma {:induction false} CallOperandsRead(items: seq<Prod>, k: string, st: seq<Prod>, p: Prod)
    requires AllPrintable(items) && items != [] && Ends(k)
    ensures ReadSuffixes("(" + (PrintItems(items) + (")" + k)), st + [p])
      == ReadSuffixes(Skip(k), st + [Binary(CALL, p, List(ReparseAll(items)))])
    decreases items, 10
  {
    var s := PrintItems(items) + (")" + k);
    ItemsStart(items, ")" + k);
    ArgumentsRead(items, k, st + [p]);
    CallSuffix(s, k, st, p, List(ReparseAll(items)));
  }

  lemma CallPrints(t: Prod, k: string)
    requires t.Binary? && t.op.CALL? && t.r.List?
    ensures Print(t) + k == Print(t.l) + ("(" + (PrintItems(t.r.items) + (")" + k)))
  {
  }

  lemma ItemsStart(items: seq<Prod>, k: string)
    requires AllPrintable(items) && items != []
    ensures Skip(PrintItems(items) + k) == PrintItems(items) + k
  {
    PrintStarts(items[0]);
    SkipStarter(PrintItems(items) + k);
  }

  /** A comma continues the arguments. */
  lemma CommaReads(items: seq<Prod>, k: string)
    requires AllPrintable(items) && items != []
    ensures ReadText(",", ", " + PrintItems(items) + k) == Just(PrintItems(items) + k)
  {
    var t := PrintItems(items) + k;
    ItemsStart(items, k);
    assert ", " + PrintItems(items) + k == [','] + (" " + t);
    TextReads(',', " " + t);
    assert (" " + t)[1..] == t;
  }

  lemma CollectOnto(st: seq<Prod>, acc: seq<Prod>, p: Prod)
    requires !p.List?
    ensures Collect(st + [p] + [List([])]) == st + [List([p])]
    ensures Collect(st + [List(acc)] + [p]) == st + [List(acc + [p])]
  {
    assert (st + [p] + [List([])])[..|st|] == st;
    assert (st + [List(acc)] + [p])[..|st|] == st;
    assert [p] + [] == [p];
  }

  lemma {:induction false} ArgumentsRead(items: seq<Prod>, k: string, st: seq<Prod>)
    requires AllPrintable(items) && items != []
    ensures ReadArguments(PrintItems(items) + (")" + k), st) == Ok(")" + k, st + [List(ReparseAll(items))], 0)
    decreases items, 9
  {
    var p := Reparse(items[0]);
    var rest := AfterFirst(items, k);
    FirstItemReads(items, k, st);
    CollectOnto(st, [], p);
    if |items| == 1 {
      NoMoreArguments(k, st + [List([p])]);
      assert ReparseAll(items) == [p];
    } else {
      MoreArgumentsRead(items[1..], [p], k, st);
      assert ReparseAll(items) == [p] + ReparseAll(items[1..]);
    }
    assert ReadMoreArguments(rest, st + [List([p])]) == Ok(")" + k, st + [List(ReparseAll(items))], 0);
  }

  /** What follows the first of the printed items. */
  function AfterFirst(items: seq<Prod>, k: string): string
    requires items != []
  {
    if |items| == 1 then ")" + k else ", " + PrintItems(items[1..]) + (")" + k)
  }

  lemma {:induction false} FirstItemReads(items: seq<Prod>, k: string, st: seq<Prod>)
    requires AllPrintable(items) && items != []
    ensures ReadExpr(PrintItems(items) + (")" + k), st) == Ok(AfterFirst(items, k), st + [Reparse(items[0])], 0)
    ensures !Reparse(items[0]).List?
    decreases items, 6
  {
    var rest := AfterFirst(items, k);
    assert PrintItems(items) + (")" + k) == Print(items[0]) + rest;
    ExprReads(items[0], rest, st);
    ReparseKeepsLists(items[0]);
  }

  lemma NoMoreArguments(k: string, st: seq<Prod>)
    requires st != []
    ensures ReadMoreArguments(")" + k, st) == Ok(")" + k, st, 0)
  {
    TextReads(')', k);
  }

  lemma {:induction false} MoreArgumentsRead(items: seq<Prod>, acc: seq<Prod>, k: string, st: seq<Prod>)
    requires AllPrintable(items) && items != []
    ensures ReadMoreArguments(", " + PrintItems(items) + (")" + k), st + [List(acc)])
      == Ok(")" + k, st + [List(acc + ReparseAll(items))], 0)
    decreases items, 8
  {
    var p := Reparse(items[0]);
    OneMoreArgument(items, acc, k, st);
    if |items| == 1 {
      NoMoreArguments(k, st + [List(acc + [p])]);
    } else {
      MoreArgumentsRead(items[1..], acc + [p], k, st);
    }
    ReparsedInTurn(items, acc);
  }

  lemma ReparsedInTurn(items: seq<Prod>, acc: seq<Prod>)
    requires items != []
    ensures |items| == 1 ==> ReparseAll(items) == [Reparse(items[0])]
    ensures acc + [Reparse(items[0])] + ReparseAll(items[1..]) == acc + ReparseAll(items)
  {
    AppendInTurn(acc, [Reparse(items[0])], ReparseAll(items[1..]));
    if |items| == 1 {
      assert ReparseAll(items[1..]) == [];
    }
  }

  lemma AppendInTurn<T>(x: seq<T>, y: seq<T>, z: seq<T>)
    ensures x + y + z == x + (y + z) && y + [] == y
  {
  }

  lemma {:induction false} OneMoreArgument(items: seq<Prod>, acc: seq<Prod>, k: string, st: seq<Prod>)
    requires AllPrintable(items) && items != []
    ensures ReadMoreArguments(", " + PrintItems(items) + (")" + k), st + [List(acc)])
      == ReadMoreArguments(AfterFirst(items, k), st + [List(acc + [Reparse(items[0])])])
    decreases items, 7
  {
    CommaReads(items, ")" + k);
    FirstItemReads(items, k, st + [List(acc)]);
    CollectOnto(st, acc, Reparse(items[0]));
  }

  lemma ReparseKeepsLists(t: Prod)
    requires Printable(t)
    ensures !Reparse(t).List?
  {
  }

  lemma {:induction false} ParenthesizedReads(t: Prod, k: string, st: seq<Prod>)
    requires Printable(t) && t.Binary? && IsInfix(t.op) && Ends(k)
    ensures ReadPostfix(Print(t) + k, st) == ReadSuffixes(Skip(k), st + [Reparse(t)])
    decreases t, 1
  {
    var s := Print(t.l) + (" " + OpText(t.op) + " " + Print(t.r) + (")" + k));
    InfixPrints(t, k);
    PrintStarts(t.l);
    SkipStarter(s);
    TextReads(')', k);
    InfixReads(t, k, st);
    ParenthesisReads(s, st);
  }

  lemma InfixPrints(t: Prod, k: string)
    requires t.Binary? && (IsInfix(t.op) || t.op.IMPLIES?)
    ensures Print(t) + k == "(" + (Print(t.l) + (" " + OpText(t.op) + " " + Print(t.r) + (")" + k)))
  {
  }

  lemma ParenthesisReads(s: string, st: seq<Prod>)
    requires Skip(s) == s
    ensures var r := ReadExpr(s, st);
      r.Ok? ==>
        var u := ReadText(")", r.rest);
        ReadAtom("(" + s, st) == if u.Just? then Ok(u.value, r.stack, r.spilled) else Fail(r.stack)
  {
    ParenthesisIsNoPrimitive(s, st);
    TextReads('(', s);
  }

  lemma ParenthesisIsNoPrimitive(s: string, st: seq<Prod>)
    ensures ReadPrimitive("(" + s, st) == Fail(st)
  {
    TextReads('(', s);
    NotNumeric("(" + s);
  }

  lemma {:induction false} InfixReads(t: Prod, k: string, st: seq<Prod>)
    requires Printable(t) && t.Binary? && IsInfix(t.op)
    ensures ReadExpr(Print(t.l) + (" " + OpText(t.op) + " " + Print(t.r) + (")" + k)), st)
      == Ok(")" + k, st + [Reparse(t)], 0)
    decreases t, 0
  {
    var op, l, r := t.op, t.l, t.r;
    var x := Print(r) + (")" + k);
    var atOp := OpText(op) + " " + x;
    var tail := " " + OpText(op) + " " + Print(r) + (")" + k);
    var level := OpLevel(op);
    assert tail == " " + atOp;
    OpStops(op, x);
    forall m | level + 1 <= m < LEVELS ensures Quiet(m, atOp) { OpQuietAbove(op, x, m); }
    LevelReads(level + 1, l, tail, st);
    var st1 := st + [Reparse(l)];
    PrintStarts(r);
    SkipStarter(x);
    forall m | 0 <= m < LEVELS ensures Quiet(m, ")" + k) { QuietAtClose(m, ")" + k); }
    TextReads(')', k);
    LevelReads(level + 1, r, ")" + k, st1);
    OperationReads(op, x, ")" + k, st, Reparse(l), Reparse(r));
    Outward(0, level, Print(l) + tail, ")" + k, st, Reparse(t));
  }

  lemma OpStops(op: BinOp, x: string)
    requires IsInfix(op)
    ensures var s := OpText(op) + " " + x;
      Skip(" " + s) == s && NoSuffix(s)
  {
    var s := OpText(op) + " " + x;
    OpTextShape(op, x);
    assert (" " + s)[1..] == s;
  }

  /** One operator with its right operand, and then no more of that level. */
  lemma OperationReads(op: BinOp, x: string, rest: string, st: seq<Prod>, p: Prod, q: Prod)
    requires IsInfix(op) && Skip(x) == x && Quiet(OpLevel(op), rest)
    requires ReadLevel(OpLevel(op) + 1, x, st + [p]) == Ok(rest, st + [p] + [q], 0)
    ensures ReadOperators(OpLevel(op), OpText(op) + " " + x, st + [p])
      == Ok(rest, st + [Binary(Reop(op), p, q)], 0)
  {
    var level := OpLevel(op);
    OpReads(op, x, st + [p]);
    ReduceTop(Reop(op), rest, st, p, q);
    var after := st + [Binary(Reop(op), p, q)];
    QuietEnds(level, rest, after);
  }

  /** Where nothing continues the operand, it is read at any level. */
  lemma {:induction false} LevelReads(level: nat, t: Prod, k: string, st: seq<Prod>)
    requires Printable(t) && Ends(k) && level <= LEVELS
    requires NoSuffix(Skip(k)) && (k == [] || k[0] != '.')
    requires forall m | level <= m < LEVELS :: Quiet(m, Skip(k))
    ensures ReadLevel(level, Print(t) + k, st) == Ok(Skip(k), st + [Reparse(t)], 0)
    decreases t, 5
  {
    UnaryReads(t, k, st);
    Outward(level, LEVELS, Print(t) + k, Skip(k), st, Reparse(t));
  }

  lemma {:induction false} UnaryReads(t: Prod, k: string, st: seq<Prod>)
    requires Printable(t) && Ends(k) && NoSuffix(Skip(k)) && (k == [] || k[0] != '.')
    ensures ReadUnary(UNARY_OPERATORS, Print(t) + k, st) == Ok(Skip(k), st + [Reparse(t)], 0)
    decreases t, 4
  {
    if t.Unary? {
      var s := Print(t.e) + k;
      BareReads(t.e, k, st);
      UnaryText(t, k);
      OwnUnary(t.uop, s, Skip(k), st, Reparse(t.e));
    } else {
      BareReads(t, k, st);
      NotUnary(t, k, st);
    }
  }

  lemma UnaryText(t: Prod, k: string)
    requires t.Unary?
    ensures Print(t) + k == UnOpText(t.uop) + (Print(t.e) + k)
  {
  }

  lemma {:induction false} BareReads(t: Prod, k: string, st: seq<Prod>)
    requires Printable(t) && !t.Unary? && Ends(k) && NoSuffix(Skip(k)) && (k == [] || k[0] != '.')
    ensures Skip(Print(t) + k) == Print(t) + k
    ensures ReadPostfix(Print(t) + k, st) == Ok(Skip(k), st + [Reparse(t)], 0)
    decreases t, 3
  {
    PrintStarts(t);
    SkipStarter(Print(t) + k);
    SkipSkip(k);
    PostfixReads(t, k, st);
    SuffixesStop(Skip(k), st + [Reparse(t)]);
  }

  lemma NoUnaryText(t: Prod, k: string)
    requires Printable(t) && !t.Unary?
    ensures forall i | 0 <= i < |UNARY_OPERATORS| :: ReadText(UNARY_OPERATORS[i].0, Print(t) + k) == Nothing
  {
    PrintStarts(t);
    SkipStarter(Print(t) + k);
  }

  lemma NotUnary(t: Prod, k: string, st: seq<Prod>)
    requires Printable(t) && !t.Unary?
    ensures ReadUnary(UNARY_OPERATORS, Print(t) + k, st) == ReadPostfix(Print(t) + k, st)
  {
    NoUnaryText(t, k);
    NoUnary(UNARY_OPERATORS, Print(t) + k, st);
  }

  lemma {:induction false} NoUnary(ops: seq<(string, UnOp)>, s: string, st: seq<Prod>)
    requires forall o | o in ops :: o.0 != []
    requires forall i | 0 <= i < |ops| :: ReadText(ops[i].0, s) == Nothing
    ensures ReadUnary(ops, s, st) == ReadPostfix(s, st)
    decreases |ops|
  {
    if ops != [] {
      assert forall i | 0 <= i < |ops[1..]| :: ops[1..][i] == ops[i + 1];
      NoUnary(ops[1..], s, st);
    }
  }

  lemma OwnUnary(op: UnOp, s: string, rest: string, st: seq<Prod>, p: Prod)
    requires !op.LOAD? && Skip(s) == s && ReadPostfix(s, st) == Ok(rest, st + [p], 0)
    ensures ReadUnary(UNARY_OPERATORS, UnOpText(op) + s, st) == Ok(rest, st + [Unary(op, p)], 0)
  {
    var n := UnaryIndex(op);
    OwnUnaryText(op, s);
    SkipUnary(UNARY_OPERATORS, n, UnOpText(op) + s, st);
    FirstUnary(UNARY_OPERATORS[n..], op, s, rest, st, p);
  }

  function UnaryIndex(op: UnOp): nat {
    match op
    case LOAD => 0
    case NEG => 1
    case NOT => 2
    case BNOT => 3
  }

  lemma OwnUnaryText(op: UnOp, s: string)
    requires !op.LOAD?
    ensures var u, n := UNARY_OPERATORS, UnaryIndex(op);
      && u[n] == (UnOpText(op), op)
      && ReadText(UnOpText(op), UnOpText(op) + s) == Just(Skip(s))
      && forall i | 0 <= i < n :: ReadText(u[i].0, UnOpText(op) + s) == Nothing
  {
    TextReads(UnOpText(op)[0], s);
  }

  lemma FirstUnary(ops: seq<(string, UnOp)>, op: UnOp, s: string, rest: string, st: seq<Prod>, p: Prod)
    requires ops != [] && ops[0] == (UnOpText(op), op) && forall o | o in ops :: o.0 != []
    requires ReadText(UnOpText(op), UnOpText(op) + s) == Just(s)
    requires ReadPostfix(s, st) == Ok(rest, st + [p], 0)
    ensures ReadUnary(ops, UnOpText(op) + s, st) == Ok(rest, st + [Unary(op, p)], 0)
  {
    assert (st + [p])[..|st|] == st;
  }

  lemma {:induction false} SkipUnary(ops: seq<(string, UnOp)>, n: nat, s: string, st: seq<Prod>)
    requires n <= |ops| && forall o | o in ops :: o.0 != []
    requires forall i | 0 <= i < n :: ReadText(ops[i].0, s) == Nothing
    ensures ReadUnary(ops, s, st) == ReadUnary(ops[n..], s, st)
    decreases n
  {
    if n > 0 {
      assert forall i | 0 <= i < n - 1 :: ops[1..][i] == ops[i + 1];
      SkipUnary(ops[1..], n - 1, s, st);
      assert ops[1..][n - 1..] == ops[n..];
    }
  }

  lemma {:induction false} SkipSkip(s: string)
    ensures Skip(Skip(s)) == Skip(s)
  {
  }

  lemma {:induction false} ExprReads(t: Prod, k: string, st: seq<Prod>)
    requires Printable(t) && Closes(k)
    ensures ReadExpr(Print(t) + k, st) == Ok(k, st + [Reparse(t)], 0)
    decreases t, 6
  {
    forall m | 0 <= m < LEVELS ensures Quiet(m, k) { QuietAtClose(m, k); }
    assert Skip(k) == k;
    LevelReads(0, t, k, st);
  }

  // ---------- main results ----------

  /** Reading a printed expression consumes all of it and leaves one operand: the expression
    * itself, except that right shifts come back as left shifts and literals cut to 32 bits. */
  lemma ReadUndoesPrint(t: Prod, st: seq<Prod>)
    requires Printable(t)
    ensures ReadExpr(Print(t), st) == Ok("", st + [Reparse(t)], 0)
  {
    assert Print(t) + "" == Print(t);
    ExprReads(t, "", st);
  }

  /** Nothing in the tree comes back changed. */
  predicate Stable(t: Prod)
    decreases t, 1
  {
    match t
    case IntConst(n) => n < 0x8000_0000
    case Binary(op, l, r) => !op.RSH? && Stable(l) && Stable(r)
    case Unary(_, e) => Stable(e)
    case List(items) => AllStable(items)
    case _ => true
  }

  predicate AllStable(ts: seq<Prod>)
    decreases ts, 0
  {
    ts == [] || (Stable(ts[0]) && AllStable(ts[1..]))
  }

  lemma {:induction false} ReparseIsIdentityIff(t: Prod)
    ensures Reparse(t) == t <==> Stable(t)
    decreases t, 1
  {
    match t
    case Binary(op, l, r) =>
      ReparseIsIdentityIff(l);
      ReparseIsIdentityIff(r);
    case Unary(_, e) => ReparseIsIdentityIff(e);
    case List(items) => ReparseAllIsIdentityIff(items);
    case _ =>
  }

  lemma {:induction false} ReparseAllIsIdentityIff(ts: seq<Prod>)
    ensures ReparseAll(ts) == ts <==> AllStable(ts)
    decreases ts, 0
  {
    if ts != [] {
      ReparseIsIdentityIff(ts[0]);
      ReparseAllIsIdentityIff(ts[1..]);
      assert ts == [ts[0]] + ts[1..];
    }
  }
}
