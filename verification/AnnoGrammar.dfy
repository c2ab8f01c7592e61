/** The annotation grammar: ordered choice with backtracking over the input, while the
  * actions push and pop an operand stack that backtracking does not restore. */
module AnnoGrammar {
  import opened AnnoTree

  // ---------- lexemes ----------

  predicate IsSpace(c: char) {
    c == ' ' || c == '\n' || c == '\r' || c == '\t' || c == '\U{000b}' || c == '\U{000c}'
  }

  predicate IsDigit(c: char) {
    '0' <= c <= '9'
  }

  predicate IsOctal(c: char) {
    '0' <= c <= '7'
  }

  predicate IsHex(c: char) {
    IsDigit(c) || 'a' <= c <= 'f' || 'A' <= c <= 'F'
  }

  predicate IsIdent1(c: char) {
    c == '_' || 'a' <= c <= 'z' || 'A' <= c <= 'Z'
  }

  predicate IsIdent2(c: char) {
    IsDigit(c) || IsIdent1(c)
  }

  function Skip(s: string): (r: string)
    ensures |r| <= |s|
    ensures r != [] ==> !IsSpace(r[0])
  {
    if s != [] && IsSpace(s[0]) then Skip(s[1..]) else s
  }

  /** The length of the longest prefix whose characters satisfy p. */
  function Span(p: char -> bool, s: string): (n: nat)
    ensures n <= |s|
    ensures forall i | 0 <= i < n :: p(s[i])
    ensures n < |s| ==> !p(s[n])
  {
    if s != [] && p(s[0]) then 1 + Span(p, s[1..]) else 0
  }

  /** Matching a lexeme: a length, no match, or an exception. */
  datatype Lexeme = Match(len: nat) | NoMatch | Throw

  /** exponent := ('e'|'E') must ('+'|'-') must digit+ */
  function MatchExponent(s: string): (r: Lexeme)
    ensures r.Match? ==> 0 < r.len <= |s|
  {
    if s == [] || (s[0] != 'e' && s[0] != 'E') then NoMatch
    else if |s| == 1 || (s[1] != '+' && s[1] != '-') then Throw
    else
      var n := Span(IsDigit, s[2..]);
      if n == 0 then Throw else Match(2 + n)
  }

  /** prefix exponent? */
  function WithExponent(s: string, n: nat): (r: Lexeme)
    requires n <= |s|
    ensures r.Match? ==> n <= r.len <= |s|
    ensures r != NoMatch
  {
    match MatchExponent(s[n..])
    case Match(k) => Match(n + k)
    case NoMatch => Match(n)
    case Throw => Throw
  }

  /** floating := digit+ exponent | digit* '.' digit+ exponent? | digit+ '.' digit* exponent? */
  function MatchFloating(s: string): (r: Lexeme)
    ensures r.Match? ==> 0 < r.len <= |s|
  {
    var n := Span(IsDigit, s);
    var first := if n == 0 then NoMatch else MatchExponent(s[n..]);
    match first
    case Match(k) => Match(n + k)
    case Throw => Throw
    case NoMatch =>
      if n == |s| || s[n] != '.' then NoMatch
      else
        var k := Span(IsDigit, s[n + 1..]);
        if k == 0 && n == 0 then NoMatch else WithExponent(s, n + 1 + k)
  }

  /** integer := '0' ('x'|'X') must xdigit+ | '0' octal* | nonzero digit* */
  function MatchInteger(s: string): (r: Lexeme)
    ensures r.Match? ==> 0 < r.len <= |s|
  {
    if s == [] then NoMatch
    else if s[0] == '0' then
      if |s| > 1 && (s[1] == 'x' || s[1] == 'X') then
        var n := Span(IsHex, s[2..]);
        if n == 0 then Throw else Match(2 + n)
      else Match(1 + Span(IsOctal, s[1..]))
    else if IsDigit(s[0]) then Match(1 + Span(IsDigit, s[1..]))
    else NoMatch
  }

  function MatchIdentifier(s: string): (r: Lexeme)
    ensures r.Match? ==> 0 < r.len <= |s|
  {
    if s == [] || !IsIdent1(s[0]) then NoMatch else Match(1 + Span(IsIdent2, s[1..]))
  }

  function MatchBoolean(s: string): (r: Lexeme)
    ensures r.Match? ==> 0 < r.len <= |s|
  {
    if "true" <= s then Match(4) else if "false" <= s then Match(5) else NoMatch
  }

  /** prefix character, then an identifier */
  function MatchMarked(mark: char, s: string): (r: Lexeme)
    ensures r.Match? ==> 0 < r.len <= |s|
  {
    if s == [] || s[0] != mark then NoMatch
    else
      match MatchIdentifier(s[1..])
      case Match(n) => Match(1 + n)
      case _ => NoMatch
  }

  // ---------- string_cast<long long>, then int ----------

  function DigitValue(c: char): nat {
    if IsDigit(c) then c as int - '0' as int
    else if 'a' <= c <= 'f' then 10 + (c as int - 'a' as int)
    else if 'A' <= c <= 'F' then 10 + (c as int - 'A' as int)
    else 0
  }

  function Number(base: nat, s: string): nat {
    if s == [] then 0 else Number(base, s[..|s| - 1]) * base + DigitValue(s[|s| - 1])
  }

  function ToInt32(n: nat): int {
    var w := n % 0x1_0000_0000;
    if w < 0x8000_0000 then w else w - 0x1_0000_0000
  }

  /** None for what makes the cast throw: an upper-case hexadecimal prefix, or overflow. */
  function CastInteger(s: string): Maybe<int> {
    if |s| >= 2 && s[0] == '0' && s[1] == 'X' then Nothing
    else
      var n :=
        if "0x" <= s then Number(16, s[2..])
        else if "0" <= s && s != "0" then Number(8, s[1..])
        else Number(10, s);
      if n < 0x8000_0000_0000_0000 then Just(ToInt32(n)) else Nothing
  }

  datatype Maybe<T> = Nothing | Just(value: T)

  // ---------- rules ----------

  /** A rule succeeds with the rest of the input and the stack, fails leaving the input but
    * not necessarily the stack as it was, or throws.  `spilled` counts the operands that
    * alternatives abandoned on the way have left on the stack. */
  datatype Result =
    | Ok(rest: string, stack: seq<Prod>, spilled: nat)
    | Fail(stack: seq<Prod>)
    | Abort

  /** A rule that yields one operand: it keeps the stack below its entry depth and ends
    * deeper by one, plus what was spilled. */
  ghost predicate Yields(s: string, stack: seq<Prod>, r: Result) {
    match r
    case Ok(rest, after, spilled) => |rest| < |s| && stack <= after && |after| == |stack| + 1 + spilled
    case Fail(after) => stack <= after
    case Abort => true
  }

  /** A rule that continues an operand: it keeps the stack below that operand. */
  ghost predicate Continues(s: string, stack: seq<Prod>, r: Result)
    requires stack != []
  {
    match r
    case Ok(rest, after, spilled) => |rest| <= |s| && stack[..|stack| - 1] <= after && |after| == |stack| + spilled
    case Fail(after) => stack <= after
    case Abort => true
  }

  ghost predicate Advances(s: string, stack: seq<Prod>, r: Result)
    requires stack != []
  {
    Continues(s, stack, r) && (r.Ok? ==> |r.rest| < |s|)
  }

  function More(r: Result, n: nat): Result {
    if r.Ok? then Ok(r.rest, r.stack, r.spilled + n) else r
  }

  /** A literal surrounded by spaces; None if it is not there. */
  function ReadText(text: string, s: string): (r: Maybe<string>)
    ensures r.Just? ==> |r.value| + |text| <= |s|
  {
    var t := Skip(s);
    if text <= t then Just(Skip(t[|text|..])) else Nothing
  }

  function PushLexeme(t: string, n: nat, stack: seq<Prod>, p: Prod): Result
    requires n <= |t|
  {
    Ok(Skip(t[n..]), stack + [p], 0)
  }

  /** primitive := floating | integer | boolean | variable | builtin | symbol */
  function ReadPrimitive(s: string, stack: seq<Prod>): (r: Result)
    ensures Yields(s, stack, r)
    ensures r.Fail? ==> r.stack == stack
  {
    var t := Skip(s);
    match MatchFloating(t)
    case Throw => Abort
    case Match(n) => PushLexeme(t, n, stack, DoubleConst(t[..n]))
    case NoMatch =>
      match MatchInteger(t)
      case Throw => Abort
      case Match(n) =>
        (match CastInteger(t[..n])
         case Just(i) => PushLexeme(t, n, stack, IntConst(i))
         case Nothing => Abort)
      case NoMatch => ReadWord(t, stack)
  }

  /** boolean | variable | builtin | symbol */
  function ReadWord(t: string, stack: seq<Prod>): (r: Result)
    ensures Yields(t, stack, r)
    ensures r.Fail? ==> r.stack == stack
  {
    var boolean, name, builtin, symbol :=
      MatchBoolean(t), MatchIdentifier(t), MatchMarked('\\', t), MatchMarked('@', t);
    if boolean.Match? then PushLexeme(t, boolean.len, stack, BoolConst(boolean.len == 4))
    else if name.Match? then PushLexeme(t, name.len, stack, Variable(t[..name.len]))
    else if builtin.Match? then PushLexeme(t, builtin.len, stack, Builtin(t[1..builtin.len]))
    else if symbol.Match? then PushLexeme(t, symbol.len, stack, NamedConst(t[1..symbol.len]))
    else Fail(stack)
  }

  function ReadVariable(s: string, stack: seq<Prod>): (r: Result)
    ensures Yields(s, stack, r)
    ensures r.Fail? ==> r.stack == stack
  {
    var t := Skip(s);
    var name := MatchIdentifier(t);
    if name.Match? then PushLexeme(t, name.len, stack, Variable(t[..name.len])) else Fail(stack)
  }

  /** `op_baction`: pulls two operands and pushes one. */
  function Reduce(op: BinOp, r: Result): (q: Result)
    requires r.Ok? ==> |r.stack| >= 2
  {
    match r
    case Ok(rest, st, spilled) => Ok(rest, Joined(op, st), spilled)
    case _ => r
  }

  function Joined(op: BinOp, st: seq<Prod>): (q: seq<Prod>)
    requires |st| >= 2
    ensures |q| == |st| - 1
  {
    var n := |st|;
    st[..n - 2] + [Binary(op, st[n - 2], st[n - 1])]
  }

  /** `op_uaction` */
  function Reduce1(op: UnOp, r: Result): (q: Result)
    requires r.Ok? ==> |r.stack| >= 1
  {
    match r
    case Ok(rest, st, spilled) => Ok(rest, Wrapped(op, st), spilled)
    case _ => r
  }

  function Wrapped(op: UnOp, st: seq<Prod>): (q: seq<Prod>)
    requires st != []
    ensures |q| == |st|
  {
    var n := |st|;
    st[..n - 1] + [Unary(op, st[n - 1])]
  }

  /** `op_collect_list` */
  function Collect(st: seq<Prod>): (q: seq<Prod>)
    requires |st| >= 2
    ensures |q| == |st| - 1
  {
    var n := |st|;
    st[..n - 2] + [CreateList(st[n - 2], st[n - 1])]
  }

  datatype Infix = Infix(text: string, op: BinOp)

  const LEVELS := 11

  /** The binary levels, loosest first, each with its operators in the order they are tried.
    * Both shifts build a left shift. */
  function Operators(level: nat): (r: seq<Infix>)
    ensures forall o | o in r :: o.text != []
    ensures forall o | o in r :: !o.op.RSH? && !o.op.CALL? && !o.op.INDEX? && !o.op.PROPERTY? && !o.op.INDIR_PROPERTY?
  {
    match level
    case 0 => [Infix("==>", IMPLIES)]
    case 1 => [Infix("||", LOR)]
    case 2 => [Infix("&&", LAND)]
    case 3 => [Infix("|", BOR)]
    case 4 => [Infix("^", XOR)]
    case 5 => [Infix("&", BAND)]
    case 6 => [Infix("==", EQ), Infix("!=", NE)]
    case 7 => [Infix(">=", GE), Infix(">", GT), Infix("<=", LE), Infix("<", LT)]
    case 8 => [Infix("<<", LSH), Infix(">>", LSH)]
    case 9 => [Infix("+", PLUS), Infix("-", MINUS)]
    case 10 => [Infix("*", MULT), Infix("/", DIV), Infix("%", MOD)]
    case _ => []
  }

  /** The operators of a level from the i-th on. */
  function OperatorsFrom(level: nat, i: nat): (r: seq<Infix>)
    requires level < LEVELS && i <= |Operators(level)|
    ensures forall o | o in r :: o.text != []
    ensures i == 0 ==> r == Operators(level)
    ensures i < |Operators(level)| ==> r != [] && r[0] == Operators(level)[i] && r[1..] == Operators(level)[i + 1..]
  {
    Operators(level)[i..]
  }

  const UNARY_OPERATORS: seq<(string, UnOp)> := [("*", LOAD), ("-", NEG), ("!", NOT), ("~", BNOT)]

  /** expr */
  function ReadExpr(s: string, stack: seq<Prod>): (r: Result)
    ensures Yields(s, stack, r)
    decreases |s|, 30
  {
    ReadLevel(0, s, stack)
  }

  /** One level of the cascade: an operand of the next level, then operators. */
  function ReadLevel(level: nat, s: string, stack: seq<Prod>): (r: Result)
    requires level <= LEVELS
    ensures Yields(s, stack, r)
    decreases |s|, 10 + LEVELS - level
  {
    if level == LEVELS then ReadUnary(UNARY_OPERATORS, s, stack)
    else
      match ReadLevel(level + 1, s, stack)
      case Ok(rest, st, n) => More(ReadOperators(level, rest, st), n)
      case other => other
  }

  /** As many operators of the level as there are. */
  function ReadOperators(level: nat, s: string, stack: seq<Prod>): (r: Result)
    requires level < LEVELS && stack != []
    ensures Continues(s, stack, r) && !r.Fail?
    decreases |s|, 5
  {
    match ReadOperator(level, Operators(level), s, stack)
    case Ok(rest, st, n) => More(ReadOperators(level, rest, st), n)
    case Fail(st) => Ok(s, st, |st| - |stack|)
    case Abort => Abort
  }

  /** One of the operators, tried in order, with its right operand. */
  function ReadOperator(level: nat, ops: seq<Infix>, s: string, stack: seq<Prod>): (r: Result)
    requires level < LEVELS && stack != []
    requires forall o | o in ops :: o.text != []
    ensures Advances(s, stack, r)
    decreases |s|, 4, |ops|
  {
    if ops == [] then Fail(stack)
    else
      match ReadText(ops[0].text, s)
      case Nothing => ReadOperator(level, ops[1..], s, stack)
      case Just(t) =>
        assert ops[0] in ops;
        match ReadLevel(level + 1, t, stack)
        case Fail(st) => More(ReadOperator(level, ops[1..], s, st), |st| - |stack|)
        case r => Reduce(ops[0].op, r)
  }

  /** One operator is tried, and the others if it fails. */
  lemma NextOperator(level: nat, ops: seq<Infix>, others: seq<Infix>, s: string, stack: seq<Prod>)
    requires level < LEVELS && stack != [] && ops != [] && others == ops[1..]
    requires (forall o | o in ops :: o.text != []) && (forall o | o in others :: o.text != [])
    ensures var t, r := ReadText(ops[0].text, s), ReadOperator(level, ops, s, stack);
      && (t.Nothing? ==> r == ReadOperator(level, others, s, stack))
      && (t.Just? ==>
            var q := ReadLevel(level + 1, t.value, stack);
            r == if q.Fail? then More(ReadOperator(level, others, s, q.stack), |q.stack| - |stack|)
                 else Reduce(ops[0].op, q))
  {
    assert ops[0] in ops;
  }

  /** unary := load | neg | not | bnot | postfix */
  function ReadUnary(ops: seq<(string, UnOp)>, s: string, stack: seq<Prod>): (r: Result)
    requires forall o | o in ops :: o.0 != []
    ensures Yields(s, stack, r)
    decreases |s|, 9, |ops|
  {
    if ops == [] then ReadPostfix(s, stack)
    else
      match ReadText(ops[0].0, s)
      case Nothing => ReadUnary(ops[1..], s, stack)
      case Just(t) =>
        assert ops[0] in ops;
        match ReadPostfix(t, stack)
        case Fail(st) => More(ReadUnary(ops[1..], s, st), |st| - |stack|)
        case r => Reduce1(ops[0].1, r)
  }

  /** postfix := atom (index | call | property | indirect property)* */
  function ReadPostfix(s: string, stack: seq<Prod>): (r: Result)
    ensures Yields(s, stack, r)
    decreases |s|, 8
  {
    match ReadAtom(s, stack)
    case Ok(rest, st, n) => More(ReadSuffixes(rest, st), n)
    case other => other
  }

  /** atom := primitive | '(' expr ')' */
  function ReadAtom(s: string, stack: seq<Prod>): (r: Result)
    ensures Yields(s, stack, r)
    decreases |s|, 7
  {
    match ReadPrimitive(s, stack)
    case Fail(st) =>
      (match ReadText("(", s)
       case Nothing => Fail(st)
       case Just(t) =>
         match ReadExpr(t, st)
         case Ok(rest, after, n) =>
           (match ReadText(")", rest)
            case Just(u) => Ok(u, after, n)
            case Nothing => Fail(after))
         case other => other)
    case other => other
  }

  function ReadSuffixes(s: string, stack: seq<Prod>): (r: Result)
    requires stack != []
    ensures Continues(s, stack, r) && !r.Fail?
    decreases |s|, 6
  {
    match ReadSuffix(s, stack)
    case Ok(rest, st, n) => More(ReadSuffixes(rest, st), n)
    case Fail(st) => Ok(s, st, |st| - |stack|)
    case Abort => Abort
  }

  /** Once '[' or '(' is read, the rest of the suffix must follow or the parse throws. */
  function ReadSuffix(s: string, stack: seq<Prod>): (r: Result)
    requires stack != []
    ensures Advances(s, stack, r)
    ensures r.Fail? ==> r.stack == stack
    decreases |s|, 4
  {
    match ReadText("[", s)
    case Just(t) =>
      (match ReadExpr(t, stack)
       case Ok(rest, st, n) =>
         (match ReadText("]", rest)
          case Just(u) => Reduce(INDEX, Ok(u, st, n))
          case Nothing => Abort)
       case _ => Abort)
    case Nothing =>
      match ReadText("(", s)
      case Just(t) =>
        (match ReadArguments(t, stack)
         case Ok(rest, st, n) =>
           (match ReadText(")", rest)
            case Just(u) => Reduce(CALL, Ok(u, st, n))
            case Nothing => Abort)
         case _ => Abort)
      case Nothing =>
        match ReadMember(".", PROPERTY, s, stack)
        case Fail(_) => ReadMember("->", INDIR_PROPERTY, s, stack)
        case other => other
  }

  function ReadMember(text: string, op: BinOp, s: string, stack: seq<Prod>): (r: Result)
    requires stack != [] && text != []
    ensures Advances(s, stack, r)
    ensures r.Fail? ==> r.stack == stack
  {
    match ReadText(text, s)
    case Nothing => Fail(stack)
    case Just(t) => Reduce(op, ReadVariable(t, stack))
  }

  /** arguments := expr (',' must expr)*, collected into a list from an empty list on */
  function ReadArguments(s: string, stack: seq<Prod>): (r: Result)
    ensures Yields(s, stack, r)
    decreases |s|, 31
  {
    match ReadExpr(s, stack)
    case Ok(rest, st, n) => More(ReadMoreArguments(rest, Collect(st + [List([])])), n)
    case other => other
  }

  function ReadMoreArguments(s: string, stack: seq<Prod>): (r: Result)
    requires stack != []
    ensures Continues(s, stack, r) && !r.Fail?
    decreases |s|
  {
    match ReadText(",", s)
    case Nothing => Ok(s, stack, 0)
    case Just(t) =>
      match ReadExpr(t, stack)
      case Ok(rest, st, n) => More(ReadMoreArguments(rest, Collect(st)), n)
      case _ => Abort
  }
}
