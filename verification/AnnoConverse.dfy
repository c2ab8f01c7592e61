/** The round trip is exact on the trees that `Printable` and `Stable` describe, and on no
  * others: what the reader makes of the text of any tree that it could have built. */
module AnnoConverse {
  import opened AnnoTree
  import opened AnnoGrammar
  import opened AnnoRoundTrip
  import opened AnnoShape
  import opened AnnoLimits

  predicate NoDouble(t: Prod)
    decreases t, 1
  {
    match t
    case DoubleConst(_) => false
    case Binary(_, l, r) => NoDouble(l) && NoDouble(r)
    case Unary(_, e) => NoDouble(e)
    case List(items) => NoDoubles(items)
    case _ => true
  }

  predicate NoDoubles(ts: seq<Prod>)
    decreases ts, 0
  {
    ts == [] || (NoDouble(ts[0]) && NoDoubles(ts[1..]))
  }

  // ---------- the printable tree with the same text ----------

  function Core(t: Prod): Prod {
    if t.Unary? then t.e else t
  }

  /** A suffix goes inside a unary operator. */
  function Attach(op: BinOp, l: Prod, r: Prod): Prod {
    if l.Unary? then Unary(l.uop, Binary(op, l.e, r)) else Binary(op, l, r)
  }

  /** The printable tree with the same text, if there is one. */
  function Canon(t: Prod): Maybe<Prod>
    decreases t, 1
  {
    match t
    case IntConst(n) =>
      if n >= LITERALS || -n >= LITERALS then Nothing
      else if n < 0 then Just(Unary(NEG, IntConst(-n)))
      else Just(t)
    case Variable(_) => Just(t)
    case Builtin(_) => Just(t)
    case NamedConst(_) => Just(t)
    case Binary(op, l, r) =>
      if op.IMPLIES? then Nothing
      else
        (match (Canon(l), CanonRight(op, r))
         case (Just(p), Just(q)) =>
           if IsInfix(op) then Just(Binary(op, p, q))
           else if op.PROPERTY? && Core(p).IntConst? then Nothing
           else Just(Attach(op, p, q))
         case _ => Nothing)
    case Unary(op, e) =>
      (match Canon(e)
       case Just(p) => if op.LOAD? || p.Unary? then Nothing else Just(Unary(op, p))
       case Nothing => Nothing)
    case _ => Nothing
  }

  function CanonRight(op: BinOp, r: Prod): Maybe<Prod>
    decreases r, 2
  {
    if IsMember(op) then Just(r)
    else if op.CALL? && r.List? then
      (match CanonAll(r.items)
       case Just(qs) => Just(List(qs))
       case Nothing => Nothing)
    else Canon(r)
  }

  function CanonAll(ts: seq<Prod>): (r: Maybe<seq<Prod>>)
    ensures r.Just? ==> |r.value| == |ts|
    decreases ts, 0
  {
    if ts == [] then Just([])
    else
      match (Canon(ts[0]), CanonAll(ts[1..]))
      case (Just(p), Just(ps)) => Just([p] + ps)
      case _ => Nothing
  }

  predicate IsSuffix(op: BinOp) {
    op.CALL? || op.INDEX? || IsMember(op)
  }

  function SuffixText(op: BinOp, r: Prod): string
    requires IsSuffix(op)
  {
    match op
    case CALL => "(" + Print(r) + ")"
    case INDEX => "[" + Print(r) + "]"
    case PROPERTY => "." + Print(r)
    case _ => "->" + Print(r)
  }

  lemma SuffixPrints(op: BinOp, l: Prod, r: Prod)
    requires IsSuffix(op)
    ensures Print(Binary(op, l, r)) == Print(l) + SuffixText(op, r)
  {
  }

  lemma AttachPrints(op: BinOp, l: Prod, r: Prod)
    requires IsSuffix(op)
    ensures Print(Attach(op, l, r)) == Print(l) + SuffixText(op, r)
  {
    SuffixPrints(op, Core(l), r);
    if l.Unary? {
      Append(UnOpText(l.uop), Print(l.e), SuffixText(op, r));
    }
  }

  ghost predicate SameText(u: Prod, t: Prod) {
    Printable(u) && Print(u) == Print(t)
  }

  lemma {:induction false} CanonPrints(t: Prod)
    requires Built(t) && Canon(t).Just?
    ensures Printable(Canon(t).value) && Print(Canon(t).value) == Print(t)
    decreases t, 1
  {
    match t
    case Binary(op, l, r) =>
      CanonPrints(l);
      if op.CALL? {
        CanonAllPrints(r.items);
      } else if !IsMember(op) {
        CanonPrints(r);
      }
      if IsInfix(op) {
        InfixSameText(op, Canon(l).value, Canon(r).value, l, r);
      } else {
        SuffixSameText(op, Canon(l).value, CanonRight(op, r).value, l, r);
      }
    case Unary(_, e) => CanonPrints(e);
    case _ =>
  }

  lemma InfixSameText(op: BinOp, p: Prod, q: Prod, l: Prod, r: Prod)
    requires IsInfix(op) && SameText(p, l) && SameText(q, r)
    ensures SameText(Binary(op, p, q), Binary(op, l, r))
  {
  }

  lemma SuffixSameText(op: BinOp, p: Prod, q: Prod, l: Prod, r: Prod)
    requires IsSuffix(op) && SameText(p, l) && Print(q) == Print(r) && !(op.PROPERTY? && Core(p).IntConst?)
    requires if op.CALL? then q.List? && q.items != [] && AllPrintable(q.items)
             else if op.INDEX? then Printable(q) else q.Variable? && Name(q.name)
    ensures SameText(Attach(op, p, q), Binary(op, l, r))
  {
    AttachPrints(op, p, q);
    SuffixPrints(op, l, r);
    SameSuffix(op, q, r);
  }

  lemma SameSuffix(op: BinOp, q: Prod, r: Prod)
    requires IsSuffix(op) && Print(q) == Print(r)
    ensures SuffixText(op, q) == SuffixText(op, r)
  {
  }

  lemma {:induction false} CanonAllPrints(ts: seq<Prod>)
    requires (forall t | t in ts :: Built(t)) && CanonAll(ts).Just?
    ensures AllPrintable(CanonAll(ts).value) && PrintItems(CanonAll(ts).value) == PrintItems(ts)
    decreases ts, 0
  {
    if ts != [] {
      CanonPrints(ts[0]);
      CanonAllPrints(ts[1..]);
    }
  }

  /** Where what is read is the tree itself, its text was not that of another one. */
  lemma {:induction false} CanonIsSelf(t: Prod)
    requires Built(t) && Canon(t).Just? && Reparse(Canon(t).value) == t
    ensures Printable(t) && Stable(t)
    decreases t, 1
  {
    match t
    case Binary(op, l, r) =>
      CanonIsSelf(l);
      if op.CALL? {
        CanonAllAreSelf(r.items);
      } else if !IsMember(op) {
        CanonIsSelf(r);
      }
    case Unary(_, e) => CanonIsSelf(e);
    case _ =>
  }

  lemma {:induction false} CanonAllAreSelf(ts: seq<Prod>)
    requires (forall t | t in ts :: Built(t)) && CanonAll(ts).Just? && ReparseAll(CanonAll(ts).value) == ts
    ensures AllPrintable(ts) && AllStable(ts)
    decreases ts, 0
  {
    if ts != [] {
      CanonIsSelf(ts[0]);
      assert ReparseAll(CanonAll(ts[1..]).value) == ReparseAll(CanonAll(ts).value)[1..];
      CanonAllAreSelf(ts[1..]);
    }
  }

  // ---------- refused texts ----------

  /** Reading fails, throws, or stops before a letter or digit. */
  ghost predicate Bad(r: Result) {
    r.Ok? ==> r.rest != [] && IsIdent2(r.rest[0])
  }

  /** Reading does not get to a closing parenthesis. */
  ghost predicate Unclosed(r: Result) {
    r.Ok? ==> r.rest != [] && r.rest[0] != ')' && !IsSpace(r.rest[0])
  }

  /** What can follow an operand in a printed text. */
  predicate Follows(k: string) {
    Ends(k) && (k != [] && (k[0] == '+' || k[0] == '-') ==> |k| >= 2 && !IsDigit(k[1]))
  }

  predicate Sign(c: char) {
    c == '-' || c == '!' || c == '~'
  }

  lemma {:induction false} BuiltStarts(t: Prod)
    requires Built(t) && NoDouble(t)
    ensures Print(t) != []
    ensures var c := Print(t)[0]; Starter(c) || c == '#' || c == '?'
    decreases t
  {
    match t
    case IntConst(n) => DecimalDigits(if n < 0 then -n else n);
    case Binary(op, l, r) =>
      if IsSuffix(op) {
        BuiltStarts(l);
        assert Print(t)[0] == Print(l)[0];
      }
    case _ =>
  }

  lemma LetterIsNoOperator(level: nat, s: string)
    requires level < LEVELS && s != [] && IsIdent2(s[0])
    ensures Quiet(level, s)
  {
    QuietBeforeNone(level, s);
  }

  /** Where the outer levels find no operator, they leave the result as it is. */
  lemma {:induction false} OutwardStays(outer: nat, inner: nat, s: string, st: seq<Prod>)
    requires outer <= inner <= LEVELS
    requires var r := ReadLevel(inner, s, st); r.Ok? ==> forall m | outer <= m < inner :: Quiet(m, r.rest)
    ensures var r, q := ReadLevel(inner, s, st), ReadLevel(outer, s, st);
      if r.Ok? then q.Ok? && q.rest == r.rest else !q.Ok?
    decreases inner - outer
  {
    if outer < inner {
      OutwardStays(outer + 1, inner, s, st);
      var r := ReadLevel(outer + 1, s, st);
      if r.Ok? {
        QuietEnds(outer, r.rest, r.stack);
      }
    }
  }

  lemma BadOutward(level: nat, s: string, st: seq<Prod>)
    requires level <= LEVELS && Bad(ReadUnary(UNARY_OPERATORS, s, st))
    ensures Bad(ReadLevel(level, s, st))
  {
    var r := ReadLevel(LEVELS, s, st);
    if r.Ok? {
      forall m | level <= m < LEVELS ensures Quiet(m, r.rest) {
        LetterIsNoOperator(m, r.rest);
      }
    }
    OutwardStays(level, LEVELS, s, st);
  }

  // ---------- signs ----------

  /** No operand without a sign begins with a sign, a '#' or a '?'. */
  lemma SignedIsNoPostfix(s: string, st: seq<Prod>)
    requires s != [] && (Sign(s[0]) || s[0] == '#' || s[0] == '?')
    ensures ReadPostfix(s, st) == Fail(st)
  {
    assert Skip(s) == s;
    NotNumeric(s);
    assert ReadPrimitive(s, st) == Fail(st);
    assert ReadText("(", s) == Nothing;
  }

  /** A sign before what is refused is refused. */
  lemma {:induction false} SignBefore(ops: seq<(string, UnOp)>, u: UnOp, x: string, st: seq<Prod>)
    requires !u.LOAD? && Skip(x) == x && forall o | o in ops :: o in UNARY_OPERATORS
    requires forall any :: Bad(ReadPostfix(x, any))
    ensures Bad(ReadUnary(ops, UnOpText(u) + x, st))
    decreases |ops|
  {
    var s := UnOpText(u) + x;
    TextReads(UnOpText(u)[0], x);
    if ops == [] {
      SignedIsNoPostfix(s, st);
    } else {
      assert ops[0] in ops && ops[0] in UNARY_OPERATORS;
      if ops[0].0 == UnOpText(u) {
        var r := ReadPostfix(x, st);
        if r.Fail? {
          SignBefore(ops[1..], u, x, r.stack);
        }
      } else {
        assert ReadText(ops[0].0, s) == Nothing;
        SignBefore(ops[1..], u, x, st);
      }
    }
  }

  lemma SignRefused(u: UnOp, x: string, st: seq<Prod>)
    requires !u.LOAD? && x != [] && !IsSpace(x[0])
    requires forall any :: Bad(ReadPostfix(x, any))
    ensures Bad(ReadPostfix(UnOpText(u) + x, st)) && Bad(ReadUnary(UNARY_OPERATORS, UnOpText(u) + x, st))
  {
    SkipAnyStart(x);
    SignedIsNoPostfix(UnOpText(u) + x, st);
    SignBefore(UNARY_OPERATORS, u, x, st);
  }

  // ---------- a property on an integer literal ----------

  /** The text of the tree ends in an integer literal. */
  predicate EndsInInt(t: Prod) {
    match t
    case IntConst(_) => true
    case Unary(_, e) => EndsInInt(e)
    case _ => false
  }

  /** A name that goes on with no number. */
  predicate NameFollows(y: string) {
    && y != [] && IsIdent1(y[0])
    && (|y| >= 2 && (y[1] == '+' || y[1] == '-') ==> |y| >= 3 && !IsDigit(y[2]))
  }

  lemma ExponentBeforeName(y: string)
    requires NameFollows(y)
    ensures MatchExponent(y) == if y[0] == 'e' || y[0] == 'E' then Throw else NoMatch
  {
  }

  lemma FloatingBeforeName(d: string, y: string)
    requires d != [] && (forall i | 0 <= i < |d| :: IsDigit(d[i])) && NameFollows(y)
    ensures MatchFloating(d + ("." + y)) == if y[0] == 'e' || y[0] == 'E' then Throw else Match(|d| + 1)
  {
    var s := d + ("." + y);
    SpanOf(IsDigit, d, "." + y);
    assert s[|d|..] == "." + y && s[|d| + 1..] == y;
    assert MatchExponent("." + y) == NoMatch;
    assert Span(IsDigit, y) == 0;
    ExponentBeforeName(y);
  }

  lemma PointBeforeName(d: string, y: string, st: seq<Prod>)
    requires d != [] && (forall i | 0 <= i < |d| :: IsDigit(d[i])) && NameFollows(y)
    ensures ReadPrimitive(d + ("." + y), st)
      == if y[0] == 'e' || y[0] == 'E' then Abort else Ok(y, st + [DoubleConst((d + ("." + y))[..|d| + 1])], 0)
  {
    var s := d + ("." + y);
    FloatingBeforeName(d, y);
    SkipAnyStart(s);
    SkipAnyStart(y);
    assert s[|d| + 1..] == y;
  }

  /** The digits and the point are read as a floating literal, and the name is left. */
  lemma IntPropertyIsBad(d: string, x: string, k: string, st: seq<Prod>)
    requires d != [] && (forall i | 0 <= i < |d| :: IsDigit(d[i])) && Name(x) && Follows(k)
    ensures Bad(ReadPostfix(d + ("." + (x + k)), st))
  {
    var y := x + k;
    var s := d + ("." + y);
    NameThenText(x, k);
    PointBeforeName(d, y, st);
    if y[0] != 'e' && y[0] != 'E' {
      SuffixesStop(y, st + [DoubleConst(s[..|d| + 1])]);
    }
  }

  lemma NameThenText(x: string, k: string)
    requires Name(x) && Follows(k)
    ensures NameFollows(x + k) && NoSuffix(x + k) && Skip(x + k) == x + k
  {
    var y := x + k;
    assert y[0] == x[0] && (|x| >= 2 ==> y[1] == x[1]);
    assert |x| == 1 ==> y[1..] == k;
    SkipAnyStart(y);
  }

  lemma DigitsWithoutSign(d: string, y: string, st: seq<Prod>)
    requires d != [] && forall i | 0 <= i < |d| :: IsDigit(d[i])
    ensures Skip(d + y) == d + y && ReadUnary(UNARY_OPERATORS, d + y, st) == ReadPostfix(d + y, st)
  {
    SkipAnyStart(d + y);
    NoUnary(UNARY_OPERATORS, d + y, st);
  }

  lemma DigitsPropertyRefused(d: string, x: string, k: string, st: seq<Prod>)
    requires d != [] && (forall i | 0 <= i < |d| :: IsDigit(d[i])) && Name(x) && Follows(k)
    ensures var s := d + ("." + (x + k));
      && Bad(ReadPostfix(s, st)) && Bad(ReadUnary(UNARY_OPERATORS, s, st))
      && Bad(ReadPostfix("-" + s, st)) && Bad(ReadUnary(UNARY_OPERATORS, "-" + s, st))
  {
    var y := "." + (x + k);
    forall any ensures Bad(ReadPostfix(d + y, any)) {
      IntPropertyIsBad(d, x, k, any);
    }
    DigitsWithoutSign(d, y, st);
    SignRefused(NEG, d + y, st);
  }

  lemma IntLiteralPropertyRefused(n: int, x: string, k: string, st: seq<Prod>)
    requires Name(x) && Follows(k)
    ensures var s := PrintInt(n) + ("." + (x + k));
      Bad(ReadPostfix(s, st)) && Bad(ReadUnary(UNARY_OPERATORS, s, st))
  {
    var d: nat := if n < 0 then -n else n;
    DecimalDigits(d);
    DigitsPropertyRefused(Decimal(d), x, k, st);
    Append("-", Decimal(d), "." + (x + k));
  }

  lemma {:induction false} IntPropertyRefused(t: Prod, x: string, k: string, st: seq<Prod>)
    requires EndsInInt(t) && Name(x) && Follows(k)
    ensures Bad(ReadPostfix(Print(t) + ("." + (x + k)), st))
    ensures Bad(ReadUnary(UNARY_OPERATORS, Print(t) + ("." + (x + k)), st))
    decreases t
  {
    match t
    case IntConst(n) => IntLiteralPropertyRefused(n, x, k, st);
    case Unary(u, e) =>
      var y := Print(e) + ("." + (x + k));
      Append(UnOpText(u), Print(e), "." + (x + k));
      if u.LOAD? {
        SignedIsNoPostfix(UnOpText(u) + y, st);
        NoOperand(LEVELS, UnOpText(u) + y, st);
      } else {
        forall any ensures Bad(ReadPostfix(y, any)) {
          IntPropertyRefused(e, x, k, any);
        }
        EndsInIntStarts(e);
        SignRefused(u, y, st);
      }
  }

  lemma EndsInIntStarts(t: Prod)
    requires EndsInInt(t)
    ensures Print(t) != [] && !IsSpace(Print(t)[0])
  {
    match t
    case IntConst(n) => DecimalDigits(if n < 0 then -n else n);
    case Unary(_, _) =>
  }

  lemma SkipAnyStart(s: string)
    requires s != [] && !IsSpace(s[0])
    ensures Skip(s) == s
  {
  }

  // ---------- operators ----------

  /** Looser levels find nothing to continue with before an operator. */
  lemma OpQuietBelow(op: BinOp, x: string, level: nat)
    requires IsInfix(op) && level < OpLevel(op)
    ensures Quiet(level, OpText(op) + " " + x)
  {
    var s := OpText(op) + " " + x;
    var ops := Operators(level);
    OpTextShape(op, x);
    assert Skip(s) == s;
    forall st: seq<Prod> | st != []
      ensures ReadOperator(level, ops, s, st) == Fail(st)
    {
      if level == 7 && (op.LSH? || op.RSH?) {
        ShiftIsNoComparison(op, x, st);
      } else {
        NoPrefixBelow(op, s, level);
        NoneMatches(level, ops, s, st);
      }
    }
  }

  lemma NoPrefixBelow(op: BinOp, s: string, level: nat)
    requires IsInfix(op) && level < OpLevel(op) && !(level == 7 && (op.LSH? || op.RSH?))
    requires |s| >= 2 && s[0] == OpText(op)[0] && s[1] == SecondChar(op)
    requires |OpText(op)| == 2 ==> |s| >= 3 && s[2] == ' '
    ensures forall i | 0 <= i < |Operators(level)| :: !(Operators(level)[i].text <= s)
  {
    forall i | 0 <= i < |Operators(level)|
      ensures !(Operators(level)[i].text <= s)
    {
      OperatorAt(level, i);
      LooserIsOther(op, level, i, Operators(level)[i].text);
    }
  }

  lemma LooserIsOther(op: BinOp, level: nat, i: nat, text: string)
    requires IsInfix(op) && level < OpLevel(op) && !(level == 7 && (op.LSH? || op.RSH?)) && IsOperator(level, i, text)
    ensures text[0] != OpText(op)[0] || (|text| >= 2 && text[1] != SecondChar(op))
      || (|OpText(op)| == 2 && |text| == 3 && text[2] != ' ')
  {
  }

  lemma ShiftIsNoComparison(op: BinOp, x: string, st: seq<Prod>)
    requires (op.LSH? || op.RSH?) && st != []
    ensures ReadOperator(7, Operators(7), OpText(op) + " " + x, st) == Fail(st)
  {
    var s := OpText(op) + " " + x;
    var n := if op.LSH? then 3 else 1;
    OpTextShape(op, x);
    SkipAnyStart(s);
    OthersDoNotMatch(op, n, s);
    SkipOthers(7, Operators(7), n, s, st);
    ShiftIsForeign(op, Operators(7), n, s, st);
  }

  lemma ShiftIsForeign(op: BinOp, ops: seq<Infix>, n: nat, s: string, st: seq<Prod>)
    requires (op.LSH? || op.RSH?) && ops == Operators(7) && n == (if op.LSH? then 3 else 1) && st != []
    requires |s| >= 2 && s[0] == OpText(op)[0] && s[1] == SecondChar(op)
    requires forall i | 0 <= i < |ops| && i != n :: !(ops[i].text <= s)
    ensures ReadOperator(7, ops[n..], s, st) == Fail(st)
  {
    var rest := ops[n..];
    forall i | 1 <= i < |rest| ensures !(rest[i].text <= s) {
      assert rest[i] == ops[n + i];
    }
    ForeignOperand(7, rest, s, st);
  }

  lemma OthersDoNotMatch(op: BinOp, n: nat, s: string)
    requires (op.LSH? || op.RSH?) && n == if op.LSH? then 3 else 1
    requires |s| >= 2 && s[0] == OpText(op)[0] && s[1] == SecondChar(op)
    ensures forall i | 0 <= i < |Operators(7)| && i != n :: !(Operators(7)[i].text <= s)
  {
    forall i | 0 <= i < |Operators(7)| && i != n ensures !(Operators(7)[i].text <= s) {
      OperatorAt(7, i);
      ComparisonIsOther(op, i, Operators(7)[i].text);
      DiffersEarly(Operators(7)[i].text, s);
    }
  }

  lemma ComparisonIsOther(op: BinOp, i: nat, text: string)
    requires (op.LSH? || op.RSH?) && IsOperator(7, i, text) && i != if op.LSH? then 3 else 1
    ensures text[0] != OpText(op)[0] || (|text| == 2 && text[1] != SecondChar(op))
  {
  }

  /** An operator whose operand begins with what no operand begins with is not read, and
    * neither are those after it. */
  lemma ForeignOperand(level: nat, ops: seq<Infix>, s: string, st: seq<Prod>)
    requires level < LEVELS && st != [] && ops != [] && (forall o | o in ops :: o.text != [])
    requires |ops[0].text| == 1 && |s| >= 2 && s[0] == ops[0].text[0] && !IsSpace(s[0]) && Foreign(s[1])
    requires forall i | 1 <= i < |ops| :: !(ops[i].text <= s)
    ensures ReadOperator(level, ops, s, st) == Fail(st)
  {
    var t := s[1..];
    assert Skip(s) == s && Skip(t) == t;
    assert ops[0].text <= s;
    NoOperand(level + 1, t, st);
    assert forall i | 0 <= i < |ops[1..]| :: ops[1..][i] == ops[i + 1];
    NoneMatches(level, ops[1..], s, st);
  }

  lemma LaterIsOther(op: BinOp, i: nat, text: string)
    requires IsInfix(op) && OpIndex(op) < i && IsOperator(OpLevel(op), i, text)
    requires (op.GE? || op.LE?) ==> i > OpIndex(op) + 1
    ensures text[0] != OpText(op)[0] || (|text| == 2 && text[1] != SecondChar(op))
  {
  }

  lemma LaterOperatorsFail(op: BinOp, x: string, st: seq<Prod>)
    requires IsInfix(op) && st != []
    ensures ReadOperator(OpLevel(op), OperatorsFrom(OpLevel(op), OpIndex(op) + 1), OpText(op) + " " + x, st) == Fail(st)
  {
    var s, later := OpText(op) + " " + x, OperatorsFrom(OpLevel(op), OpIndex(op) + 1);
    OpTextShape(op, x);
    SkipAnyStart(s);
    LaterDoNotMatch(op, s);
    if op.GE? || op.LE? {
      ShorterIsForeign(op, later, s, st);
    } else {
      NoneMatches(OpLevel(op), later, s, st);
    }
  }

  lemma ShorterIsForeign(op: BinOp, later: seq<Infix>, s: string, st: seq<Prod>)
    requires (op.GE? || op.LE?) && st != [] && later != [] && (forall o | o in later :: o.text != [])
    requires later[0].text == OpText(op)[..1] && (forall i | 1 <= i < |later| :: !(later[i].text <= s))
    requires |s| >= 2 && s[0] == OpText(op)[0] && s[1] == SecondChar(op)
    ensures ReadOperator(OpLevel(op), later, s, st) == Fail(st)
  {
    ForeignOperand(7, later, s, st);
  }

  lemma LaterDoNotMatch(op: BinOp, s: string)
    requires IsInfix(op) && |s| >= 2 && s[0] == OpText(op)[0] && s[1] == SecondChar(op)
    ensures var later := OperatorsFrom(OpLevel(op), OpIndex(op) + 1);
      && (forall i | (if op.GE? || op.LE? then 1 else 0) <= i < |later| :: !(later[i].text <= s))
      && (op.GE? || op.LE? ==> later != [] && later[0].text == OpText(op)[..1])
  {
    var level, n := OpLevel(op), OpIndex(op) + 1;
    var later := OperatorsFrom(level, n);
    forall i | (if op.GE? || op.LE? then 1 else 0) <= i < |later|
      ensures !(later[i].text <= s)
    {
      LaterDoesNotMatch(op, level, n + i, s);
      assert later[i] == Operators(level)[n + i];
    }
    if op.GE? || op.LE? {
      ShorterIsNext(op, later);
    }
  }

  lemma LaterDoesNotMatch(op: BinOp, level: nat, i: nat, s: string)
    requires IsInfix(op) && |s| >= 2 && s[0] == OpText(op)[0] && s[1] == SecondChar(op)
    requires level == OpLevel(op) && OpIndex(op) < i < |Operators(level)|
    requires (op.GE? || op.LE?) ==> i > OpIndex(op) + 1
    ensures !(Operators(level)[i].text <= s)
  {
    var text := Operators(level)[i].text;
    OperatorAt(level, i);
    LaterIsOther(op, i, text);
    DiffersEarly(text, s);
  }

  lemma DiffersEarly(text: string, s: string)
    requires |s| >= 2 && text != [] && (text[0] != s[0] || (|text| == 2 && text[1] != s[1]))
    ensures !(text <= s)
  {
  }

  lemma ShorterIsNext(op: BinOp, later: seq<Infix>)
    requires op.GE? || op.LE?
    requires later == OperatorsFrom(OpLevel(op), OpIndex(op) + 1)
    ensures later != [] && later[0].text == OpText(op)[..1]
  {
  }

  lemma OperatorRefused(op: BinOp, x: string, st: seq<Prod>)
    requires IsInfix(op) && st != [] && Skip(x) == x && Bad(ReadLevel(OpLevel(op) + 1, x, st))
    ensures Bad(ReadOperator(OpLevel(op), Operators(OpLevel(op)), OpText(op) + " " + x, st))
  {
    var s, level, n := OpText(op) + " " + x, OpLevel(op), OpIndex(op);
    var ops := Operators(level);
    OpTextShape(op, x);
    assert Skip(s) == s;
    OwnOperator(op, s);
    SkipOthers(level, ops, n, s, st);
    OpTextReads(op, x);
    assert ops[n..][0] == Infix(OpText(op), Reop(op)) && ops[n..][1..] == ops[n + 1..];
    var r := ReadLevel(level + 1, x, st);
    if r.Fail? {
      LaterOperatorsFail(op, x, r.stack);
    }
  }

  /** Where the right operand is refused, the operation does not get to its end. */
  lemma OperationRefused(op: BinOp, inner: nat, l: Prod, x: string, st: seq<Prod>)
    requires IsInfix(op) && inner == OpLevel(op) + 1 && Printable(l) && Skip(x) == x
    requires forall any :: Bad(ReadLevel(inner, x, any))
    ensures Unclosed(ReadExpr(Print(l) + (" " + (OpText(op) + " " + x)), st))
  {
    var atOp, level := OpText(op) + " " + x, OpLevel(op);
    var s := Print(l) + (" " + atOp);
    RefusedAtLevel(op, inner, l, x, st);
    var r := ReadLevel(level, s, st);
    if r.Ok? {
      RestIsQuiet(op, x, r.rest);
    }
    OutwardStays(0, level, s, st);
    OperatorIsOpen(op, x);
  }

  lemma OperatorIsOpen(op: BinOp, x: string)
    requires IsInfix(op)
    ensures var s := OpText(op) + " " + x; s != [] && s[0] != ')' && !IsSpace(s[0])
  {
    OpTextShape(op, x);
  }

  lemma RestIsQuiet(op: BinOp, x: string, rest: string)
    requires IsInfix(op) && (rest == OpText(op) + " " + x || (rest != [] && IsIdent2(rest[0])))
    ensures forall m | 0 <= m < OpLevel(op) :: Quiet(m, rest)
  {
    forall m | 0 <= m < OpLevel(op) ensures Quiet(m, rest) {
      if rest == OpText(op) + " " + x {
        OpQuietBelow(op, x, m);
      } else {
        LetterIsNoOperator(m, rest);
      }
    }
  }

  /** At the level of the operator, reading stops before it, or before a letter. */
  lemma RefusedAtLevel(op: BinOp, inner: nat, l: Prod, x: string, st: seq<Prod>)
    requires IsInfix(op) && inner == OpLevel(op) + 1 && Printable(l) && Skip(x) == x
    requires forall any :: Bad(ReadLevel(inner, x, any))
    ensures var r := ReadLevel(OpLevel(op), Print(l) + (" " + (OpText(op) + " " + x)), st);
      r.Ok? ==> r.rest == OpText(op) + " " + x || Bad(r)
  {
    var atOp, st1 := OpText(op) + " " + x, st + [Reparse(l)];
    OpStops(op, x);
    forall m | inner <= m < LEVELS ensures Quiet(m, atOp) { OpQuietAbove(op, x, m); }
    OpTextShape(op, x);
    LevelReads(inner, l, " " + atOp, st);
    OperatorRefused(op, x, st1);
    OperatorsStop(OpLevel(op), atOp, st1);
  }

  lemma OperatorsStop(level: nat, s: string, st: seq<Prod>)
    requires level < LEVELS && st != [] && Bad(ReadOperator(level, Operators(level), s, st))
    ensures var r := ReadOperators(level, s, st); r.Ok? ==> r.rest == s || Bad(r)
  {
    var r := ReadOperator(level, Operators(level), s, st);
    if r.Ok? {
      LetterIsNoOperator(level, r.rest);
      QuietEnds(level, r.rest, r.stack);
    }
  }

  lemma UnclosedIsRefused(s: string, st: seq<Prod>)
    requires Skip(s) == s && Unclosed(ReadExpr(s, st))
    ensures !ReadPostfix("(" + s, st).Ok?
  {
    ParenthesisIsNoPrimitive(s, st);
    TextReads('(', s);
  }

  /** An implication prints as an operator that does not exist. */
  lemma ImplicationUnclosed(l: Prod, x: string, st: seq<Prod>)
    requires Printable(l)
    ensures Unclosed(ReadExpr(Print(l) + (" " + (OpText(IMPLIES) + " " + x)), st))
  {
    var tail := OpText(IMPLIES) + " " + x;
    MarksStop(tail);
    LevelReads(0, l, " " + tail, st);
  }

  // ---------- every tree without a printable one of the same text is refused ----------

  lemma {:induction false} RefusedExpr(level: nat, t: Prod, k: string, st: seq<Prod>)
    requires level <= LEVELS && Built(t) && NoDouble(t) && Canon(t).Nothing?
    requires Follows(k) && (k == [] || k[0] != '.')
    ensures Bad(ReadLevel(level, Print(t) + k, st))
    decreases t, 5
  {
    RefusedUnary(t, k, st);
    BadOutward(level, Print(t) + k, st);
  }

  lemma {:induction false} RefusedUnary(t: Prod, k: string, st: seq<Prod>)
    requires Built(t) && NoDouble(t) && Canon(t).Nothing?
    requires Follows(k) && (EndsInInt(t) ==> k == [] || k[0] != '.')
    ensures Bad(ReadUnary(UNARY_OPERATORS, Print(t) + k, st))
    decreases t, 4
  {
    var s := Print(t) + k;
    BuiltStarts(t);
    if Sign(s[0]) {
      RefusedSigned(t, k, st);
    } else if s[0] == '#' || s[0] == '?' {
      NoOperand(LEVELS, s, st);
    } else {
      RefusedPostfix(t, k, st);
      SkipStarter(s);
      NoUnary(UNARY_OPERATORS, s, st);
    }
  }

  /** Nothing is printed before the operand that the text starts with, or a sign is. */
  lemma {:induction false} RefusedPostfix(t: Prod, k: string, st: seq<Prod>)
    requires Built(t) && NoDouble(t) && (Canon(t).Nothing? || Canon(t).value.Unary?)
    requires Follows(k) && (EndsInInt(t) ==> k == [] || k[0] != '.')
    ensures Bad(ReadPostfix(Print(t) + k, st))
    decreases t, 3
  {
    var s := Print(t) + k;
    BuiltStarts(t);
    if Sign(s[0]) || s[0] == '#' || s[0] == '?' {
      SignedIsNoPostfix(s, st);
    } else {
      UnsignedCanon(t);
      match t
      case IntConst(n) => ReadsInt(n, k, st);
      case Binary(op, l, r) =>
        if !IsSuffix(op) {
          RefusedOperation(t, k, st);
        } else {
          RefusedBase(t, k, st);
        }
    }
  }

  lemma UnsignedCanon(t: Prod)
    requires Built(t) && NoDouble(t)
    ensures Print(t) != [] && (Canon(t).Just? ==> (Sign(Print(t)[0]) <==> Canon(t).value.Unary?))
  {
    BuiltStarts(t);
    if Canon(t).Just? {
      CanonPrints(t);
      PrintStarts(Canon(t).value);
    }
  }

  lemma {:induction false} CoreInt(t: Prod)
    requires Canon(t).Just? && Core(Canon(t).value).IntConst?
    ensures EndsInInt(t)
  {
  }

  lemma SuffixFollows(op: BinOp, r: Prod, k: string)
    requires IsSuffix(op) && Follows(k)
    ensures Follows(SuffixText(op, r) + k)
    ensures (SuffixText(op, r) + k)[0] == '.' <==> op.PROPERTY?
  {
  }

  lemma RefusedNegative(n: nat, d: string, k: string, st: seq<Prod>)
    requires n >= LITERALS && d == Decimal(n) && Ends(k) && (k == [] || k[0] != '.')
    ensures Bad(ReadUnary(UNARY_OPERATORS, "-" + d + k, st))
  {
    DecimalDigits(n);
    forall any ensures Bad(ReadPostfix(d + k, any)) {
      ReadsInt(n, k, any);
    }
    SignRefused(NEG, d + k, st);
    Append("-", d, k);
  }

  lemma {:induction false} RefusedSigned(t: Prod, k: string, st: seq<Prod>)
    requires Built(t) && NoDouble(t) && Canon(t).Nothing? && Print(t) != [] && Sign(Print(t)[0])
    requires Follows(k) && (EndsInInt(t) ==> k == [] || k[0] != '.')
    ensures Bad(ReadUnary(UNARY_OPERATORS, Print(t) + k, st))
    decreases t, 2
  {
    match t
    case IntConst(n) =>
      if n >= 0 { DecimalDigits(n); }
      RefusedNegative(-n, Decimal(-n), k, st);
    case Unary(u, e) =>
      var x := Print(e) + k;
      forall any ensures Bad(ReadPostfix(x, any)) {
        RefusedPostfix(e, k, any);
      }
      BuiltStarts(e);
      Append(UnOpText(u), Print(e), k);
      SignRefused(u, x, st);
    case Binary(op, l, r) => RefusedSignedBase(t, k, st);
  }

  lemma LiteralPropertyRefused(t: Prod, k: string, st: seq<Prod>)
    requires t.Binary? && t.op.PROPERTY? && EndsInInt(t.l) && Built(t) && Follows(k)
    ensures Bad(ReadPostfix(Print(t) + k, st)) && Bad(ReadUnary(UNARY_OPERATORS, Print(t) + k, st))
  {
    IntPropertyRefused(t.l, t.r.name, k, st);
    assert Print(t) + k == Print(t.l) + ("." + (t.r.name + k));
  }

  lemma BaseText(t: Prod, k: string)
    requires t.Binary? && IsSuffix(t.op) && Built(t) && NoDouble(t) && Follows(k)
    ensures var k1 := SuffixText(t.op, t.r) + k;
      && Print(t) + k == Print(t.l) + k1
      && Follows(k1) && k1 != [] && (k1[0] == '.' <==> t.op.PROPERTY?)
    ensures Print(t) != [] && Print(t.l) != [] && Print(t)[0] == Print(t.l)[0]
  {
    SuffixPrints(t.op, t.l, t.r);
    SuffixFollows(t.op, t.r, k);
    BuiltStarts(t.l);
  }

  lemma {:induction false} RefusedSignedBase(t: Prod, k: string, st: seq<Prod>)
    requires t.Binary? && Built(t) && NoDouble(t) && Canon(t).Nothing? && Print(t) != [] && Sign(Print(t)[0])
    requires Follows(k)
    ensures Bad(ReadUnary(UNARY_OPERATORS, Print(t) + k, st))
    decreases t, 1
  {
    BaseText(t, k);
    if t.op.PROPERTY? && EndsInInt(t.l) {
      LiteralPropertyRefused(t, k, st);
    } else if Canon(t.l).Nothing? {
      RefusedUnary(t.l, SuffixText(t.op, t.r) + k, st);
    } else {
      var p := CanonOf(t.l);
      SuffixIsRefused(t);
      SignedSuffix(t, p, k, st);
    }
  }

  lemma CanonOf(t: Prod) returns (p: Prod)
    requires Built(t) && NoDouble(t) && Canon(t).Just?
    ensures p == Canon(t).value && Printable(p) && Print(p) == Print(t) && Print(t) != []
    ensures p.Unary? <==> Sign(Print(t)[0])
  {
    p := Canon(t).value;
    CanonPrints(t);
    UnsignedCanon(t);
  }

  lemma {:induction false} SignedSuffix(t: Prod, p: Prod, k: string, st: seq<Prod>)
    requires t.Binary? && (t.op.INDEX? || t.op.CALL?) && Built(t) && NoDouble(t) && CanonRight(t.op, t.r).Nothing?
    requires p.Unary? && Printable(p) && Follows(k)
    ensures Bad(ReadUnary(UNARY_OPERATORS, Print(p) + (SuffixText(t.op, t.r) + k), st))
    decreases t, 1, 0
  {
    var x := Print(p.e) + (SuffixText(t.op, t.r) + k);
    forall any ensures Bad(ReadPostfix(x, any)) {
      RefusedSuffix(t, p.e, k, any);
    }
    PrintStarts(p.e);
    Append(UnOpText(p.uop), Print(p.e), SuffixText(t.op, t.r) + k);
    SignRefused(p.uop, x, st);
  }

  /** If not the base, and no property of a literal, it is the argument that is refused. */
  lemma SuffixIsRefused(t: Prod)
    requires t.Binary? && IsSuffix(t.op) && Canon(t).Nothing? && Canon(t.l).Just? && !(t.op.PROPERTY? && EndsInInt(t.l))
    ensures CanonRight(t.op, t.r).Nothing? && !IsMember(t.op)
  {
    if Core(Canon(t.l).value).IntConst? {
      CoreInt(t.l);
    }
  }

  lemma {:induction false} RefusedBase(t: Prod, k: string, st: seq<Prod>)
    requires t.Binary? && IsSuffix(t.op) && Built(t) && NoDouble(t) && Canon(t).Nothing?
    requires Print(t) != [] && !Sign(Print(t)[0]) && Follows(k)
    ensures Bad(ReadPostfix(Print(t) + k, st))
    decreases t, 2
  {
    BaseText(t, k);
    if t.op.PROPERTY? && EndsInInt(t.l) {
      LiteralPropertyRefused(t, k, st);
    } else if Canon(t.l).Nothing? {
      RefusedPostfix(t.l, SuffixText(t.op, t.r) + k, st);
    } else {
      var p := CanonOf(t.l);
      SuffixIsRefused(t);
      RefusedSuffix(t, p, k, st);
    }
  }

  /** Once a bracket or parenthesis is open, what is refused throws. */
  lemma {:induction false} RefusedSuffix(t: Prod, base: Prod, k: string, st: seq<Prod>)
    requires t.Binary? && (t.op.INDEX? || t.op.CALL?) && Built(t) && NoDouble(t) && CanonRight(t.op, t.r).Nothing?
    requires Printable(base) && !base.Unary? && Follows(k)
    ensures Bad(ReadPostfix(Print(base) + (SuffixText(t.op, t.r) + k), st))
    decreases t, 0
  {
    var st1 := st + [Reparse(base)];
    SuffixFollows(t.op, t.r, k);
    PostfixReads(base, SuffixText(t.op, t.r) + k, st);
    if t.op.INDEX? {
      IndexThrows(t.r, k, st1);
    } else {
      ArgumentsThrow(t.r, k, st1);
    }
  }

  lemma {:induction false} IndexThrows(r: Prod, k: string, st: seq<Prod>)
    requires Built(r) && NoDouble(r) && Canon(r).Nothing? && Follows(k) && st != []
    ensures var s := SuffixText(INDEX, r) + k; Skip(s) == s && ReadSuffixes(s, st) == Abort
    decreases r, 6
  {
    var x := Print(r) + ("]" + k);
    assert SuffixText(INDEX, r) + k == "[" + x;
    BuiltStarts(r);
    SkipAnyStart(x);
    RefusedExpr(0, r, "]" + k, st);
    BracketThrows(x, st);
  }

  lemma {:induction false} ArgumentsThrow(r: Prod, k: string, st: seq<Prod>)
    requires BuiltArguments(r) && NoDouble(r) && CanonAll(r.items).Nothing? && Follows(k) && st != []
    ensures var s := SuffixText(CALL, r) + k; Skip(s) == s && ReadSuffixes(s, st) == Abort
    decreases r, 6
  {
    var x := PrintItems(r.items) + (")" + k);
    assert SuffixText(CALL, r) + k == "(" + x;
    ItemsStartToo(r.items, ")" + k);
    RefusedArguments(r.items, k, st);
    CallThrows(x, st);
  }

  lemma BracketThrows(x: string, st: seq<Prod>)
    requires st != [] && Skip(x) == x && Bad(ReadExpr(x, st))
    ensures Skip("[" + x) == "[" + x && ReadSuffixes("[" + x, st) == Abort
  {
    TextReads('[', x);
    LetterCloses(ReadExpr(x, st));
  }

  lemma CallThrows(x: string, st: seq<Prod>)
    requires st != [] && Skip(x) == x && Bad(ReadArguments(x, st))
    ensures Skip("(" + x) == "(" + x && ReadSuffixes("(" + x, st) == Abort
  {
    TextReads('(', x);
    LetterCloses(ReadArguments(x, st));
  }

  lemma LetterCloses(r: Result)
    requires Bad(r)
    ensures r.Ok? ==> ReadText(")", r.rest) == ReadText("]", r.rest) == ReadText(",", r.rest) == Nothing
  {
    if r.Ok? {
      SkipAnyStart(r.rest);
    }
  }

  lemma ItemsStartToo(items: seq<Prod>, k: string)
    requires items != [] && Built(items[0]) && NoDouble(items[0])
    ensures Skip(PrintItems(items) + k) == PrintItems(items) + k
    ensures ReadText(",", ", " + PrintItems(items) + k) == Just(PrintItems(items) + k)
  {
    BuiltStarts(items[0]);
    CommaBefore(PrintItems(items), k);
  }

  lemma CommaBefore(x: string, k: string)
    requires x != [] && !IsSpace(x[0])
    ensures Skip(x + k) == x + k && ReadText(",", ", " + x + k) == Just(x + k)
  {
    SkipAnyStart(x + k);
    assert ", " + x + k == [','] + (" " + (x + k));
    TextReads(',', " " + (x + k));
    assert (" " + (x + k))[1..] == x + k;
  }

  lemma FirstArgumentStops(x: string, st: seq<Prod>)
    requires Bad(ReadExpr(x, st))
    ensures Bad(ReadArguments(x, st))
  {
    LetterCloses(ReadExpr(x, st));
  }

  lemma FirstArgumentReads(x: string, rest: string, st: seq<Prod>, p: Prod)
    requires ReadExpr(x, st) == Ok(rest, st + [p], 0)
    ensures Bad(ReadMoreArguments(rest, Collect(st + [p] + [List([])]))) ==> Bad(ReadArguments(x, st))
  {
  }

  lemma NextArgumentStops(s: string, x: string, st: seq<Prod>)
    requires st != [] && ReadText(",", s) == Just(x) && Bad(ReadExpr(x, st))
    ensures Bad(ReadMoreArguments(s, st))
  {
    LetterCloses(ReadExpr(x, st));
  }

  lemma NextArgumentReads(s: string, x: string, rest: string, st: seq<Prod>, p: Prod)
    requires st != [] && ReadText(",", s) == Just(x) && ReadExpr(x, st) == Ok(rest, st + [p], 0)
    ensures Bad(ReadMoreArguments(rest, Collect(st + [p]))) ==> Bad(ReadMoreArguments(s, st))
  {
  }

  lemma ItemsText(items: seq<Prod>, k: string)
    requires items != []
    ensures PrintItems(items) + (")" + k) == Print(items[0]) + AfterFirst(items, k)
    ensures Follows(AfterFirst(items, k)) && Closes(AfterFirst(items, k))
  {
    if |items| > 1 {
      Regroup(Print(items[0]), PrintItems(items[1..]), ")" + k);
    }
  }

  lemma Regroup(x: string, y: string, k: string)
    ensures x + ", " + y + k == x + (", " + y + k)
  {
  }

  lemma {:induction false} RefusedArguments(items: seq<Prod>, k: string, st: seq<Prod>)
    requires items != [] && (forall e | e in items :: Built(e)) && NoDoubles(items) && CanonAll(items).Nothing?
    ensures Bad(ReadArguments(PrintItems(items) + (")" + k), st))
    decreases items, 7
  {
    ItemsText(items, k);
    var x, rest := Print(items[0]) + AfterFirst(items, k), AfterFirst(items, k);
    if Canon(items[0]).Nothing? {
      RefusedExpr(0, items[0], rest, st);
      FirstArgumentStops(x, st);
    } else {
      var p := CanonOf(items[0]);
      ExprReads(p, rest, st);
      FirstArgumentReads(x, rest, st, Reparse(p));
      RefusedMore(items, k, Collect(st + [Reparse(p)] + [List([])]));
    }
  }

  /** The first argument has been read, and one of the others is refused. */
  lemma {:induction false} RefusedMore(items: seq<Prod>, k: string, st: seq<Prod>)
    requires items != [] && (forall e | e in items :: Built(e)) && NoDoubles(items) && st != []
    requires CanonAll(items[1..]).Nothing?
    ensures Bad(ReadMoreArguments(AfterFirst(items, k), st))
    decreases items, 6
  {
    var others := items[1..];
    var x, rest := Print(others[0]) + AfterFirst(others, k), AfterFirst(others, k);
    ItemsStartToo(others, ")" + k);
    ItemsText(others, k);
    if Canon(others[0]).Nothing? {
      RefusedExpr(0, others[0], rest, st);
      NextArgumentStops(AfterFirst(items, k), x, st);
    } else {
      var p := CanonOf(others[0]);
      ExprReads(p, rest, st);
      NextArgumentReads(AfterFirst(items, k), x, rest, st, Reparse(p));
      RefusedMore(others, k, Collect(st + [Reparse(p)]));
    }
  }

  lemma {:induction false} RefusedOperation(t: Prod, k: string, st: seq<Prod>)
    requires t.Binary? && !IsSuffix(t.op) && Built(t) && NoDouble(t) && Canon(t).Nothing? && Follows(k)
    ensures Bad(ReadPostfix(Print(t) + k, st))
    decreases t, 2
  {
    var s := Print(t.l) + (" " + (OpText(t.op) + " " + (Print(t.r) + (")" + k))));
    OperationText(t, k);
    BuiltStarts(t.l);
    SkipAnyStart(s);
    if Canon(t.l).Nothing? {
      RefusedExpr(0, t.l, " " + (OpText(t.op) + " " + (Print(t.r) + (")" + k))), st);
    } else {
      var p := CanonOf(t.l);
      if t.op.IMPLIES? {
        ImplicationUnclosed(p, Print(t.r) + (")" + k), st);
      } else {
        RefusedRight(t.op, p, t.r, k, st);
      }
    }
    UnclosedIsRefused(s, st);
  }

  lemma OperationText(t: Prod, k: string)
    requires t.Binary? && !IsSuffix(t.op)
    ensures Print(t) + k == "(" + (Print(t.l) + (" " + (OpText(t.op) + " " + (Print(t.r) + (")" + k)))))
  {
    InfixPrints(t, k);
  }

  lemma {:induction false} RefusedRight(op: BinOp, p: Prod, r: Prod, k: string, st: seq<Prod>)
    requires IsInfix(op) && Printable(p) && Built(r) && NoDouble(r) && Canon(r).Nothing? && Follows(k)
    ensures Unclosed(ReadExpr(Print(p) + (" " + (OpText(op) + " " + (Print(r) + (")" + k)))), st))
    decreases r, 6
  {
    var x, inner := Print(r) + (")" + k), OpLevel(op) + 1;
    forall any ensures Bad(ReadLevel(inner, x, any)) {
      RefusedExpr(inner, r, ")" + k, any);
    }
    BuiltStarts(r);
    SkipAnyStart(x);
    OperationRefused(op, inner, p, x, st);
  }

  // ---------- main results ----------

  /** A tree that can be read is printed to a text which either is that of a printable tree,
    * or is not read to its end. */
  lemma ReadOrRefused(t: Prod, st: seq<Prod>)
    requires Built(t) && NoDouble(t)
    ensures match Canon(t)
      case Just(u) => Printable(u) && Print(u) == Print(t) && ReadExpr(Print(t), st) == Ok("", st + [Reparse(u)], 0)
      case Nothing => ReadExpr(Print(t), st).Ok? ==> ReadExpr(Print(t), st).rest != ""
  {
    if Canon(t).Just? {
      CanonPrints(t);
      ReadUndoesPrint(Canon(t).value, st);
    } else {
      assert Print(t) + "" == Print(t);
      RefusedExpr(0, t, "", st);
    }
  }

  /** A tree without floating literals is read back from its text exactly if it is printable
    * and has no right shift and no literal of more than 31 bits. */
  lemma RoundTripIff(t: Prod, st: seq<Prod>)
    requires NoDouble(t)
    ensures ReadExpr(Print(t), st) == Ok("", st + [t], 0) <==> Printable(t) && Stable(t)
  {
    if Printable(t) && Stable(t) {
      ReadUndoesPrint(t, st);
      ReparseIsIdentityIff(t);
    }
    if ReadExpr(Print(t), st) == Ok("", st + [t], 0) {
      ExprBuilds(Print(t), st);
      assert (st + [t])[|st|] == t;
      ReadOrRefused(t, st);
      var u := Canon(t).value;
      assert (st + [Reparse(u)])[|st|] == Reparse(u);
      CanonIsSelf(t);
    }
  }
}
