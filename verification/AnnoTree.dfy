/** Annotation expressions and the visitor that prints them. */
module AnnoTree {

  datatype BinOp =
    | PLUS | MINUS | MULT | DIV | MOD | EQ | NE | GT | LT | GE | LE
    | LAND | LOR | BAND | BOR | XOR | LSH | RSH
    | CALL | INDEX | PROPERTY | INDIR_PROPERTY | IMPLIES

  datatype UnOp = LOAD | NEG | NOT | BNOT

  datatype Prod =
    | IntConst(n: int)
    | DoubleConst(lexeme: string)
    | BoolConst(b: bool)
    | Variable(name: string)
    | Builtin(name: string)
    | NamedConst(name: string)
    | List(items: seq<Prod>)
    | Binary(op: BinOp, l: Prod, r: Prod)
    | Unary(uop: UnOp, e: Prod)

  // ---------- constructing lists ----------

  function AsList(p: Prod): seq<Prod> {
    if p.List? then p.items else [p]
  }

  function CreateList(p: Prod, q: Prod): Prod {
    List(AsList(p) + AsList(q))
  }

  // ---------- printing ----------

  function Digit(d: nat): char
    requires d < 10
  {
    "0123456789"[d]
  }

  function Decimal(n: nat): string {
    if n < 10 then [Digit(n)] else Decimal(n / 10) + [Digit(n % 10)]
  }

  function PrintInt(n: int): string {
    if n >= 0 then Decimal(n) else "-" + Decimal(-n)
  }

  /** The text of an infix operator. */
  function OpText(op: BinOp): string {
    match op
    case PLUS => "+"
    case MINUS => "-"
    case DIV => "/"
    case MULT => "*"
    case MOD => "%"
    case LAND => "&&"
    case LOR => "||"
    case EQ => "=="
    case NE => "!="
    case GT => ">"
    case LT => "<"
    case GE => ">="
    case LE => "<="
    case BAND => "&"
    case BOR => "|"
    case XOR => "^"
    case LSH => "<<"
    case RSH => ">>"
    case _ => "???"
  }

  function UnOpText(op: UnOp): string {
    match op
    case NEG => "-"
    case NOT => "!"
    case BNOT => "~"
    case LOAD => "???"
  }

  function BoolText(b: bool): string {
    if b then "true" else "false"
  }

  function Print(p: Prod): string
    decreases p, 1
  {
    match p
    case IntConst(n) => PrintInt(n)
    case DoubleConst(x) => x
    case BoolConst(b) => "#" + BoolText(b)
    case Variable(x) => x
    case Builtin(x) => "\\" + x
    case NamedConst(x) => "@" + x
    case List(items) => PrintItems(items)
    case Binary(op, l, r) =>
      (match op
       case CALL => Print(l) + "(" + Print(r) + ")"
       case INDEX => Print(l) + "[" + Print(r) + "]"
       case PROPERTY => Print(l) + "." + Print(r)
       case INDIR_PROPERTY => Print(l) + "->" + Print(r)
       case _ => "(" + Print(l) + " " + OpText(op) + " " + Print(r) + ")")
    case Unary(op, e) => UnOpText(op) + Print(e)
  }

  /** Printing an empty list is undefined in the original; here it prints nothing. */
  function PrintItems(items: seq<Prod>): string
    decreases items, 0
  {
    if items == [] then ""
    else if |items| == 1 then Print(items[0])
    else Print(items[0]) + ", " + PrintItems(items[1..])
  }

  lemma InfixText(start: string, l: string, op: string, r: string)
    ensures (start + "(") + (l + (" " + op + " ") + r + ")") == start + ("(" + l + " " + op + " " + r + ")")
  {
  }

  lemma Append(start: string, x: string, y: string)
    ensures start + x + y == start + (x + y)
    ensures x + "" == x
  {
  }

  // ---------- the visitor, emitting to a stream ----------

  class PrintingVisitor {
    var ost: string

    constructor ()
      ensures ost == ""
    {
      ost := "";
    }

    method Emit(s: string)
      modifies this
      ensures ost == old(ost) + s
    {
      ost := ost + s;
    }

    method Visit(p: Prod)
      modifies this
      ensures ost == old(ost) + Print(p)
      decreases p, 2
    {
      match p {
        case IntConst(n) => Emit(PrintInt(n));
        case DoubleConst(x) => Emit(x);
        case BoolConst(b) =>
          Emit("#");
          Emit(BoolText(b));
          Append(old(ost), "#", BoolText(b));
        case Variable(x) => Emit(x);
        case Builtin(x) =>
          Emit("\\");
          Emit(x);
          Append(old(ost), "\\", x);
        case NamedConst(x) =>
          Emit("@");
          Emit(x);
          Append(old(ost), "@", x);
        case List(items) => VisitItems(items);
        case Binary(op, l, r) => VisitBinary(op, l, r);
        case Unary(op, e) =>
          Emit(UnOpText(op));
          Visit(e);
          Append(old(ost), UnOpText(op), Print(e));
      }
    }

    method VisitBinary(op: BinOp, l: Prod, r: Prod)
      modifies this
      ensures ost == old(ost) + Print(Binary(op, l, r))
      decreases Binary(op, l, r), 1
    {
      match op {
        case CALL => VisitAround(Binary(op, l, r), "(", ")");
        case INDEX => VisitAround(Binary(op, l, r), "[", "]");
        case PROPERTY =>
          VisitAround(Binary(op, l, r), ".", "");
          Append("", Print(l) + "." + Print(r), "");
        case INDIR_PROPERTY =>
          VisitAround(Binary(op, l, r), "->", "");
          Append("", Print(l) + "->" + Print(r), "");
        case _ =>
          Emit("(");
          VisitAround(Binary(op, l, r), " " + OpText(op) + " ", ")");
          InfixText(old(ost), Print(l), OpText(op), Print(r));
      }
    }

    method VisitAround(p: Prod, between: string, end: string)
      requires p.Binary?
      modifies this
      ensures ost == old(ost) + (Print(p.l) + between + Print(p.r) + end)
      decreases p, 0
    {
      Visit(p.l);
      Emit(between);
      Visit(p.r);
      Emit(end);
    }

    method VisitItems(items: seq<Prod>)
      modifies this
      ensures ost == old(ost) + PrintItems(items)
      decreases items, 0
    {
      if items != [] {
        Visit(items[0]);
        for i := 1 to |items|
          invariant old(ost) + PrintItems(items) ==
            if i == |items| then ost else ost + ", " + PrintItems(items[i..])
        {
          Emit(", ");
          Visit(items[i]);
          assert items[i..][1..] == items[i + 1..];
        }
      }
    }
  }
}
