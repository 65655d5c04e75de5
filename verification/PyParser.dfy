// A recursive-descent parser for the expressions of PyExpr, with the precedence and
// associativity of section 6.17 of the Python Language Reference.
module PyParser {
  import opened PyExpr

  datatype Parsed = Fail | Got(e: Expr, rest: seq<Token>)

  datatype ParsedList = FailList | GotList(es: seq<Expr>, rest: seq<Token>)

  datatype ParsedCmp = FailCmp | GotCmp(ops: seq<CmpOperator>, es: seq<Expr>, rest: seq<Token>)

  // The precedence at which a token continues an expression; 0 for none.
  function ContinueLevel(t: Token): int {
    match t
    case Comma => TUPLE
    case IfT => TEST
    case OrT => OR
    case AndT => AND
    case NotT | IsT | InT | CmpT(_) => CMP
    case PlusT | MinusT => ARITH
    case BinT(op) => ProductionOf(op)
    case _ => 0
  }

  // The production that reads an operator, by the grammar.
  function ProductionOf(op: BinaryOperator): int {
    match op
    case BitOr => BOR
    case BitXor => BXOR
    case BitAnd => BAND
    case LShift | RShift => SHIFT
    case Add | Sub => ARITH
    case Mult | MatMult | Div | FloorDiv | Mod => TERM
    case Pow => POWER
  }

  function BinaryOf(t: Token): BinaryOperator {
    match t
    case PlusT => Add
    case MinusT => Sub
    case BinT(op) => op
    case _ => Add
  }

  predicate Continues(ts: seq<Token>, level: int) { |ts| > 0 && ContinueLevel(ts[0]) == level }

  predicate StartsWith(ts: seq<Token>, t: Token) { |ts| > 0 && ts[0] == t }

  function Parse(level: int, ts: seq<Token>): (r: Parsed)
    requires TUPLE <= level <= ATOM
    ensures r.Got? ==> |r.rest| < |ts|
    decreases |ts|, ATOM - level, 1
  {
    if level == TUPLE then ParseTuple(ts)
    else if level == TEST then ParseTest(ts)
    else if level == OR || level == AND then ParseBool(level, ts)
    else if level == NOT then
      if StartsWith(ts, NotT) then Prefix(Not, Parse(NOT, ts[1..])) else Parse(CMP, ts)
    else if level == CMP then ParseCompare(ts)
    else if BOR <= level <= TERM then
      var first := Parse(level + 1, ts);
      if first.Fail? then Fail else BinaryLoop(level, first.e, first.rest)
    else if level == FACTOR then
      if StartsWith(ts, TildeT) then Prefix(Invert, Parse(FACTOR, ts[1..]))
      else if StartsWith(ts, PlusT) then Prefix(UAdd, Parse(FACTOR, ts[1..]))
      else if StartsWith(ts, MinusT) then Prefix(USub, Parse(FACTOR, ts[1..]))
      else Parse(POWER, ts)
    else if level == POWER then ParsePower(ts)
    else if level == ATOM then ParseAtom(ts)
    else Parse(level + 1, ts)  // yield and await expressions are not modelled
  }

  function Prefix(op: UnaryOperator, r: Parsed): (p: Parsed)
    ensures p.Got? <==> r.Got?
    ensures p.Got? ==> p.rest == r.rest
  {
    if r.Fail? then Fail else Got(UnaryOp(op, r.e), r.rest)
  }

  function ParseAtom(ts: seq<Token>): (r: Parsed)
    ensures r.Got? ==> |r.rest| < |ts|
    decreases |ts|, 0, 0
  {
    if |ts| == 0 then Fail
    else if ts[0].NameT? then Got(Name(ts[0].id), ts[1..])
    else if ts[0] != LPar then Fail
    else if StartsWith(ts[1..], RPar) then Got(Tuple([]), ts[2..])
    else
      var inner := Parse(TUPLE, ts[1..]);
      if inner.Got? && StartsWith(inner.rest, RPar) then Got(inner.e, inner.rest[1..]) else Fail
  }

  function ParsePower(ts: seq<Token>): (r: Parsed)
    ensures r.Got? ==> |r.rest| < |ts|
    decreases |ts|, ATOM - POWER, 0
  {
    var base := Parse(AWAIT, ts);
    if base.Fail? || !StartsWith(base.rest, BinT(Pow)) then base
    else
      var exponent := Parse(FACTOR, base.rest[1..]);
      if exponent.Fail? then Fail else Got(BinOp(base.e, Pow, exponent.e), exponent.rest)
  }

  // Left-associative operators of one precedence.
  function BinaryLoop(level: int, acc: Expr, ts: seq<Token>): (r: Parsed)
    requires BOR <= level <= TERM
    ensures r.Got? ==> |r.rest| <= |ts|
    decreases |ts|, ATOM - level, 0
  {
    if !Continues(ts, level) then Got(acc, ts)
    else
      var rhs := Parse(level + 1, ts[1..]);
      if rhs.Fail? then Fail else BinaryLoop(level, BinOp(acc, BinaryOf(ts[0]), rhs.e), rhs.rest)
  }

  function ParseCompare(ts: seq<Token>): (r: Parsed)
    ensures r.Got? ==> |r.rest| < |ts|
    decreases |ts|, ATOM - CMP, 0
  {
    var first := Parse(BOR, ts);
    if first.Fail? then Fail
    else
      var more := CompareLoop(first.rest);
      if more.FailCmp? then Fail
      else if |more.es| == 0 then Got(first.e, more.rest)
      else Got(Compare(first.e, more.ops, more.es), more.rest)
  }

  // The comparison operator at the front, and how many tokens it takes.
  function CmpAt(ts: seq<Token>): (r: (CmpOperator, nat))
    requires Continues(ts, CMP)
    ensures r.1 <= 2
  {
    match ts[0]
    case CmpT(op) => (op, 1)
    case IsT => if StartsWith(ts[1..], NotT) then (IsNot, 2) else (Is, 1)
    case InT => (In, 1)
    case _ => if StartsWith(ts[1..], InT) then (NotIn, 2) else (NotIn, 0)
  }

  function CompareLoop(ts: seq<Token>): (r: ParsedCmp)
    ensures r.GotCmp? ==> |r.rest| <= |ts|
    decreases |ts|, ATOM - CMP, 0
  {
    if !Continues(ts, CMP) then GotCmp([], [], ts)
    else
      var (op, n) := CmpAt(ts);
      if n == 0 || n > |ts| then FailCmp
      else
        var operand := Parse(BOR, ts[n..]);
        if operand.Fail? then FailCmp
        else
          var more := CompareLoop(operand.rest);
          if more.FailCmp? then FailCmp else GotCmp([op] + more.ops, [operand.e] + more.es, more.rest)
  }

  function ParseBool(level: int, ts: seq<Token>): (r: Parsed)
    requires level == OR || level == AND
    ensures r.Got? ==> |r.rest| < |ts|
    decreases |ts|, ATOM - level, 0
  {
    var first := Parse(level + 1, ts);
    if first.Fail? then Fail
    else
      var more := BoolLoop(level, first.rest);
      if more.FailList? then Fail
      else if |more.es| == 0 then Got(first.e, more.rest)
      else Got(BoolOp(if level == OR then Or else And, [first.e] + more.es), more.rest)
  }

  function BoolLoop(level: int, ts: seq<Token>): (r: ParsedList)
    requires level == OR || level == AND
    ensures r.GotList? ==> |r.rest| <= |ts|
    decreases |ts|, ATOM - level, 0
  {
    if !Continues(ts, level) then GotList([], ts)
    else
      var operand := Parse(level + 1, ts[1..]);
      if operand.Fail? then FailList
      else
        var more := BoolLoop(level, operand.rest);
        if more.FailList? then FailList else GotList([operand.e] + more.es, more.rest)
  }

  function ParseTest(ts: seq<Token>): (r: Parsed)
    ensures r.Got? ==> |r.rest| < |ts|
    decreases |ts|, ATOM - TEST, 0
  {
    var body := Parse(OR, ts);
    if body.Fail? || !StartsWith(body.rest, IfT) then body
    else
      var test := Parse(OR, body.rest[1..]);
      if test.Fail? || !StartsWith(test.rest, ElseT) then Fail
      else
        var orelse := Parse(TEST, test.rest[1..]);
        if orelse.Fail? then Fail else Got(IfExp(test.e, body.e, orelse.e), orelse.rest)
  }

  function ParseTuple(ts: seq<Token>): (r: Parsed)
    ensures r.Got? ==> |r.rest| < |ts|
    decreases |ts|, ATOM - TUPLE, 0
  {
    var first := Parse(TUPLE + 1, ts);
    if first.Fail? || !StartsWith(first.rest, Comma) then first
    else
      var more := ItemLoop(first.rest);
      if more.FailList? then Fail else Got(Tuple([first.e] + more.es), more.rest)
  }

  // Further items, each after a comma; a comma before the end closes the list.
  function ItemLoop(ts: seq<Token>): (r: ParsedList)
    ensures r.GotList? ==> |r.rest| <= |ts|
    decreases |ts|, ATOM, 0
  {
    if !StartsWith(ts, Comma) then GotList([], ts)
    else if |ts| == 1 || ts[1] == RPar then GotList([], ts[1..])
    else
      var item := Parse(TUPLE + 1, ts[1..]);
      if item.Fail? then FailList
      else
        var more := ItemLoop(item.rest);
        if more.FailList? then FailList else GotList([item.e] + more.es, more.rest)
  }

  // A whole expression.
  function ParseExpression(ts: seq<Token>): Parsed {
    var r := Parse(TUPLE, ts);
    if r.Got? && |r.rest| == 0 then r else Fail
  }
}
