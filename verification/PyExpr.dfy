// Python expressions over names, operators, comparisons, conditionals and tuples,
// with their tokens and the precedence table of _ast_unparse.py.
module PyExpr {

  datatype UnaryOperator = Invert | Not | UAdd | USub

  datatype BinaryOperator =
    | Add | Sub | Mult | MatMult | Div | Mod | LShift | RShift | BitOr | BitXor | BitAnd | FloorDiv | Pow

  datatype CmpOperator = Eq | NotEq | Lt | LtE | Gt | GtE | Is | IsNot | In | NotIn

  datatype BoolOperator = And | Or

  datatype Expr =
    | Name(id: string)
    | UnaryOp(uop: UnaryOperator, operand: Expr)
    | BinOp(left: Expr, op: BinaryOperator, right: Expr)
    | BoolOp(bop: BoolOperator, values: seq<Expr>)
    | Compare(first: Expr, ops: seq<CmpOperator>, comparators: seq<Expr>)
    | IfExp(test: Expr, body: Expr, orelse: Expr)
    | Tuple(elts: seq<Expr>)

  // Boolean nodes have at least two operands, comparisons at least one operator.
  predicate WellFormed(e: Expr) {
    match e
    case Name(_) => true
    case UnaryOp(_, x) => WellFormed(x)
    case BinOp(l, _, r) => WellFormed(l) && WellFormed(r)
    case BoolOp(_, vs) => |vs| >= 2 && forall v :: v in vs ==> WellFormed(v)
    case Compare(f, os, cs) => |os| == |cs| >= 1 && WellFormed(f) && forall c :: c in cs ==> WellFormed(c)
    case IfExp(t, b, o) => WellFormed(t) && WellFormed(b) && WellFormed(o)
    case Tuple(es) => forall x :: x in es ==> WellFormed(x)
  }

  // ----- tokens -----

  datatype Token =
    | NameT(id: string)
    | LPar | RPar | Comma
    | NotT | AndT | OrT | IfT | ElseT | IsT | InT
    | TildeT | PlusT | MinusT
    | BinT(op: BinaryOperator)  // the binary operators other than + and -
    | CmpT(cmp: CmpOperator)    // == != < <= > >=

  function UnaryToken(op: UnaryOperator): Token {
    match op
    case Invert => TildeT
    case Not => NotT
    case UAdd => PlusT
    case USub => MinusT
  }

  function BinaryToken(op: BinaryOperator): Token {
    match op
    case Add => PlusT
    case Sub => MinusT
    case _ => BinT(op)
  }

  function CmpTokens(op: CmpOperator): seq<Token> {
    match op
    case Is => [IsT]
    case IsNot => [IsT, NotT]
    case In => [InT]
    case NotIn => [NotT, InT]
    case _ => [CmpT(op)]
  }

  function BoolToken(op: BoolOperator): Token { if op == And then AndT else OrT }

  // ----- precedences -----

  const TUPLE := 2
  const TEST := 4
  const OR := 5
  const AND := 6
  const NOT := 7
  const CMP := 8
  const BOR := 9
  const BXOR := 10
  const BAND := 11
  const SHIFT := 12
  const ARITH := 13
  const TERM := 14
  const FACTOR := 15
  const POWER := 16
  const AWAIT := 17
  const ATOM := 18

  // _Precedence.next: the highest precedence is its own successor.
  function Next(p: int): int { if p < ATOM then p + 1 else p }

  function UnaryPrecedence(op: UnaryOperator): int { if op == Not then NOT else FACTOR }

  function BinaryPrecedence(op: BinaryOperator): int {
    match op
    case Add | Sub => ARITH
    case Mult | MatMult | Div | Mod | FloorDiv => TERM
    case LShift | RShift => SHIFT
    case BitOr => BOR
    case BitXor => BXOR
    case BitAnd => BAND
    case Pow => POWER
  }

  function BoolPrecedence(op: BoolOperator): int { if op == And then AND else OR }

  // Section 6.17 of the Python Language Reference, from the weakest binding to the
  // strongest: every row follows the one before it with nothing between, but for the
  // await and yield expressions that are not modelled.
  lemma BindingOrder()
    ensures TUPLE + 2 == TEST && TEST + 1 == BoolPrecedence(Or) && BoolPrecedence(Or) + 1 == BoolPrecedence(And)
    ensures BoolPrecedence(And) + 1 == UnaryPrecedence(Not) && UnaryPrecedence(Not) + 1 == CMP
    ensures CMP + 1 == BinaryPrecedence(BitOr) && BinaryPrecedence(BitOr) + 1 == BinaryPrecedence(BitXor)
    ensures BinaryPrecedence(BitXor) + 1 == BinaryPrecedence(BitAnd)
    ensures BinaryPrecedence(BitAnd) + 1 == BinaryPrecedence(LShift) == BinaryPrecedence(RShift)
    ensures BinaryPrecedence(LShift) + 1 == BinaryPrecedence(Add) == BinaryPrecedence(Sub)
    ensures forall op | op in {Mult, MatMult, Div, FloorDiv, Mod} ::
      BinaryPrecedence(Add) + 1 == BinaryPrecedence(op)
    ensures forall op | op in {UAdd, USub, Invert} :: BinaryPrecedence(Mult) + 1 == UnaryPrecedence(op)
    ensures UnaryPrecedence(USub) + 1 == BinaryPrecedence(Pow) && BinaryPrecedence(Pow) + 2 == ATOM
  {
  }
}
