// Parsing what the printer writes gives back the same expression.
module PyRoundTrip {
  import opened PyExpr
  import opened Unparser
  import opened PyParser

  // ----- what may follow an expression, and what it starts with -----

  // The rest does not continue an expression parsed at this level.  Where a bare
  // tuple may stand, only a closing parenthesis or the end follows.
  predicate Stops(level: int, rest: seq<Token>) {
    |rest| == 0 || (ContinueLevel(rest[0]) < level && (level <= TUPLE ==> rest[0] == RPar))
  }

  // The level at which a token is read as a prefix operator; ATOM for other tokens.
  function PrefixLevel(t: Token): int {
    match t
    case NotT => NOT
    case TildeT | PlusT | MinusT => FACTOR
    case _ => ATOM
  }

  predicate Starter(t: Token) {
    t.NameT? || t == LPar || t == NotT || t == TildeT || t == PlusT || t == MinusT
  }

  // A printed expression starts with a token that begins an expression, and with no
  // prefix operator weaker than its precedence.
  predicate StartsAt(ts: seq<Token>, p: int) {
    |ts| > 0 && Starter(ts[0]) && PrefixLevel(ts[0]) >= p
  }

  lemma {:induction false} PrintStarts(e: Expr, p: int)
    requires WellFormed(e) && p <= ATOM
    ensures StartsAt(Print(e, p), p)
    decreases e, 1
  {
    if !Parenthesized(e, p) {
      BodyStarts(e);
    }
  }

  lemma {:induction false} BodyStarts(e: Expr)
    requires WellFormed(e) && e != Tuple([])
    ensures StartsAt(Body(e), Level(e))
    decreases e, 0
  {
    match e
    case Name(_) =>
    case UnaryOp(_, _) =>
    case BinOp(l, op, _) => PrintStarts(l, LeftPrecedence(op));
    case BoolOp(op, vs) => PrintStarts(vs[0], Next(BoolPrecedence(op)));
    case Compare(f, _, _) => PrintStarts(f, Next(CMP));
    case IfExp(_, b, _) => PrintStarts(b, Next(TEST));
    case Tuple(es) => PrintStarts(es[0], TEST);
  }

  lemma StartsPlus(a: seq<Token>, b: seq<Token>, p: int)
    requires StartsAt(a, p)
    ensures StartsAt(a + b, p)
  {
  }

  // ----- lifting: a tighter expression is also one of every weaker level -----

  lemma LiftOne(level: int, ts: seq<Token>, e: Expr, rest: seq<Token>)
    requires TUPLE <= level < ATOM && Parse(level + 1, ts) == Got(e, rest)
    requires Stops(level, rest) && StartsAt(ts, level + 1)
    ensures Parse(level, ts) == Got(e, rest)
  {
    if level == TUPLE {
      assert Parse(TUPLE, ts) == ParseTuple(ts);
    } else if level == TEST {
      assert Parse(TEST, ts) == ParseTest(ts);
    } else if level == OR || level == AND {
      assert Parse(level, ts) == ParseBool(level, ts);
      assert BoolLoop(level, rest) == GotList([], rest);
    } else if level == CMP {
      assert Parse(CMP, ts) == ParseCompare(ts);
      assert CompareLoop(rest) == GotCmp([], [], rest);
    } else if BOR <= level <= TERM {
      assert BinaryLoop(level, e, rest) == Got(e, rest);
    } else if level == POWER {
      assert Parse(POWER, ts) == ParsePower(ts);
    }
  }

  lemma {:induction false} Lift(level: int, k: int, ts: seq<Token>, e: Expr, rest: seq<Token>)
    requires TUPLE <= level <= k <= ATOM && Parse(k, ts) == Got(e, rest)
    requires Stops(level, rest) && StartsAt(ts, k)
    ensures Parse(level, ts) == Got(e, rest)
    decreases k - level
  {
    hide Parse;
    if level < k {
      LiftOne(k - 1, ts, e, rest);
      Lift(level, k - 1, ts, e, rest);
    }
  }

  // ----- the round trip -----

  // An expression printed at precedence p is read back at every level up to p.
  lemma {:induction false} RoundTrip(e: Expr, p: int, level: int, rest: seq<Token>)
    requires WellFormed(e) && TUPLE <= level <= p <= ATOM && Stops(level, rest)
    ensures Parse(level, Print(e, p) + rest) == Got(e, rest)
    decreases e, 6
  {
    if Parenthesized(e, p) {
      ParenRoundTrip(e, rest);
      assert [LPar] + Body(e) + [RPar] + rest == [LPar] + (Body(e) + ([RPar] + rest));
      Lift(level, ATOM, Print(e, p) + rest, e, rest);
    } else {
      BodyRoundTrip(e, level, rest);
    }
  }

  lemma {:induction false} BodyRoundTrip(e: Expr, level: int, rest: seq<Token>)
    requires WellFormed(e) && e != Tuple([]) && TUPLE <= level <= Level(e) && Stops(level, rest)
    ensures Parse(level, Body(e) + rest) == Got(e, rest)
    decreases e, 4
  {
    OwnRoundTrip(e, rest);
    BodyStarts(e);
    StartsPlus(Body(e), rest, Level(e));
    Lift(level, Level(e), Body(e) + rest, e, rest);
  }

  lemma {:induction false} ParenRoundTrip(e: Expr, rest: seq<Token>)
    requires WellFormed(e)
    ensures Parse(ATOM, [LPar] + (Body(e) + ([RPar] + rest))) == Got(e, rest)
    decreases e, 5
  {
    var ts := [LPar] + (Body(e) + ([RPar] + rest));
    if e == Tuple([]) {
      assert Body(e) == [];
      assert ts[1..] == [RPar] + rest && ts[2..] == rest;
    } else {
      BodyRoundTrip(e, TUPLE, [RPar] + rest);
      BodyStarts(e);
      assert ts[1..] == Body(e) + ([RPar] + rest);
      assert ([RPar] + rest)[1..] == rest;
    }
  }

  // At its own level the body is read by its own production.
  lemma {:induction false} OwnRoundTrip(e: Expr, rest: seq<Token>)
    requires WellFormed(e) && e != Tuple([]) && Stops(Level(e), rest)
    ensures Parse(Level(e), Body(e) + rest) == Got(e, rest)
    decreases e, 3
  {
    match e
    case Name(_) =>
    case UnaryOp(op, x) =>
      hide Parse, Print;
      RoundTrip(x, UnaryPrecedence(op), UnaryPrecedence(op), rest);
      UnaryProduction(e, rest);
    case BinOp(_, op, _) =>
      if op == Pow {
        PowerRoundTrip(e, rest);
      } else {
        LeftRoundTrip(e, Level(e), rest);
      }
    case BoolOp(_, _) => BoolRoundTrip(e, rest);
    case Compare(_, _, _) => CompareRoundTrip(e, rest);
    case IfExp(_, _, _) => IfRoundTrip(e, rest);
    case Tuple(_) => TupleRoundTrip(e, rest);
  }

  lemma UnaryProduction(e: Expr, rest: seq<Token>)
    requires e.UnaryOp?
    requires Parse(Level(e), Print(e.operand, Level(e)) + rest) == Got(e.operand, rest)
    ensures Parse(Level(e), Body(e) + rest) == Got(e, rest)
  {
    hide Print;
    assert (Body(e) + rest)[1..] == Print(e.operand, Level(e)) + rest;
  }

  // The power operator binds to the right, and less tightly than a unary operator
  // on its right.
  lemma {:induction false} PowerRoundTrip(e: Expr, rest: seq<Token>)
    requires e.BinOp? && e.op == Pow && WellFormed(e) && Stops(POWER, rest)
    ensures Parse(POWER, Body(e) + rest) == Got(e, rest)
    decreases e, 2
  {
    hide Parse, Print;
    var tail := Print(e.right, POWER) + rest;
    RoundTrip(e.left, AWAIT, AWAIT, [BinT(Pow)] + tail);
    RoundTrip(e.right, POWER, FACTOR, rest);
    assert Body(e) + rest == Print(e.left, AWAIT) + ([BinT(Pow)] + tail);
    PowerProduction(e, tail, rest);
  }

  lemma PowerProduction(e: Expr, tail: seq<Token>, rest: seq<Token>)
    requires e.BinOp? && e.op == Pow && Parse(FACTOR, tail) == Got(e.right, rest)
    requires Parse(AWAIT, Print(e.left, AWAIT) + ([BinT(Pow)] + tail)) == Got(e.left, [BinT(Pow)] + tail)
    ensures Parse(POWER, Print(e.left, AWAIT) + ([BinT(Pow)] + tail)) == Got(e, rest)
  {
    hide Print;
    var ts := Print(e.left, AWAIT) + ([BinT(Pow)] + tail);
    assert Parse(POWER, ts) == ParsePower(ts);
    hide Parse;
    assert ([BinT(Pow)] + tail)[1..] == tail;
  }

  // A unary operator on the right is printed in parentheses, although the grammar reads
  // the same tree without them.
  lemma UnaryExponent(e: Expr, rest: seq<Token>)
    requires e.BinOp? && e.op == Pow && WellFormed(e) && Stops(FACTOR, rest)
    requires e.right.UnaryOp? && e.right.uop != Not
    ensures Print(e.right, RightPrecedence(Pow)) == [LPar] + Body(e.right) + [RPar]
    ensures Parse(POWER, Print(e.left, AWAIT) + ([BinT(Pow)] + (Body(e.right) + rest))) == Got(e, rest)
  {
    hide Parse, Body;
    var tail := Body(e.right) + rest;
    RoundTrip(e.left, AWAIT, AWAIT, [BinT(Pow)] + tail);
    BodyRoundTrip(e.right, FACTOR, rest);
    PowerProduction(e, tail, rest);
  }

  // Whatever is printed at a left-associative level is where the loop stands after
  // reading it.
  lemma {:induction false} LeftRoundTrip(e: Expr, level: int, rest: seq<Token>)
    requires WellFormed(e) && BOR <= level <= TERM && Stops(level + 1, rest)
    ensures Parse(level, Print(e, level) + rest) == BinaryLoop(level, e, rest)
    decreases e, if Level(e) == level then 2 else 7
  {
    hide Parse, Print, BinaryLoop;
    if e.BinOp? && Level(e) == level {
      var right := Print(e.right, level + 1) + rest;
      var tail := [BinaryToken(e.op)] + right;
      PrintLeft(e, level, rest);
      LeftRoundTrip(e.left, level, tail);
      RoundTrip(e.right, level + 1, level + 1, rest);
      LoopStep(e, level, tail, right, rest);
    } else {
      RoundTrip(e, level + 1, level + 1, rest);
      PrintTighter(e, level);
      LoopStart(e, level, Print(e, level) + rest, rest);
    }
  }

  lemma PrintLeft(e: Expr, level: int, rest: seq<Token>)
    requires e.BinOp? && BOR <= level <= TERM && Level(e) == level
    ensures Print(e, level) + rest
         == Print(e.left, level) + ([BinaryToken(e.op)] + (Print(e.right, level + 1) + rest))
  {
  }

  lemma PrintTighter(e: Expr, level: int)
    requires BOR <= level <= TERM && !(e.BinOp? && Level(e) == level)
    ensures Print(e, level) == Print(e, level + 1)
  {
  }

  lemma LoopStep(e: Expr, level: int, tail: seq<Token>, right: seq<Token>, rest: seq<Token>)
    requires e.BinOp? && BOR <= level <= TERM && Level(e) == level && tail == [BinaryToken(e.op)] + right
    requires Parse(level + 1, right) == Got(e.right, rest)
    ensures BinaryLoop(level, e.left, tail) == BinaryLoop(level, e, rest)
  {
    assert tail[1..] == right;
    assert BinaryOf(tail[0]) == e.op;
  }

  lemma LoopStart(e: Expr, level: int, ts: seq<Token>, rest: seq<Token>)
    requires BOR <= level <= TERM && Parse(level + 1, ts) == Got(e, rest)
    ensures Parse(level, ts) == BinaryLoop(level, e, rest)
  {
  }

  lemma {:induction false} IfRoundTrip(e: Expr, rest: seq<Token>)
    requires e.IfExp? && WellFormed(e) && Stops(TEST, rest)
    ensures Parse(TEST, Body(e) + rest) == Got(e, rest)
    decreases e, 2
  {
    hide Parse, Print;
    var alternative := Print(e.orelse, TEST) + rest;
    var test := Print(e.test, OR) + ([ElseT] + alternative);
    RoundTrip(e.body, OR, OR, [IfT] + test);
    RoundTrip(e.test, OR, OR, [ElseT] + alternative);
    RoundTrip(e.orelse, TEST, TEST, rest);
    IfBody(e, rest);
    IfProduction(e, alternative, test, rest);
  }

  lemma IfBody(e: Expr, rest: seq<Token>)
    requires e.IfExp?
    ensures Body(e) + rest == Print(e.body, OR)
                            + ([IfT] + (Print(e.test, OR) + ([ElseT] + (Print(e.orelse, TEST) + rest))))
  {
    hide Print;
  }

  lemma IfProduction(e: Expr, alternative: seq<Token>, test: seq<Token>, rest: seq<Token>)
    requires e.IfExp? && Parse(TEST, alternative) == Got(e.orelse, rest)
    requires Parse(OR, test) == Got(e.test, [ElseT] + alternative)
    requires Parse(OR, Print(e.body, OR) + ([IfT] + test)) == Got(e.body, [IfT] + test)
    ensures Parse(TEST, Print(e.body, OR) + ([IfT] + test)) == Got(e, rest)
  {
    hide Print;
    var ts := Print(e.body, OR) + ([IfT] + test);
    assert Parse(TEST, ts) == ParseTest(ts);
    hide Parse;
    assert ([IfT] + test)[1..] == test && ([ElseT] + alternative)[1..] == alternative;
  }

  // ----- boolean operands -----

  // The operands that follow the first, each behind the operator.
  function BoolTail(op: BoolOperator, vs: seq<Expr>, p: int): seq<Token> {
    if |vs| == 0 then [] else [BoolToken(op)] + PrintBool(op, vs, p)
  }

  lemma {:induction false} BoolRoundTrip(e: Expr, rest: seq<Token>)
    requires e.BoolOp? && WellFormed(e) && Stops(Level(e), rest)
    ensures Parse(Level(e), Body(e) + rest) == Got(e, rest)
    decreases e, 2
  {
    hide Parse, Print;
    var level, vs := Level(e), e.values;
    var tail := BoolTail(e.bop, vs[1..], Next(level + 1)) + rest;
    BoolBody(e, rest);
    BoolTailStops(e.bop, vs[1..], Next(level + 1), rest);
    RoundTrip(vs[0], level + 1, level + 1, tail);
    BoolLoopRoundTrip(e.bop, vs[1..], Next(level + 1), rest);
    BoolProduction(e, tail, rest);
  }

  lemma BoolBody(e: Expr, rest: seq<Token>)
    requires e.BoolOp? && |e.values| > 1
    ensures var p := Next(Level(e));
      Body(e) + rest == Print(e.values[0], p) + (BoolTail(e.bop, e.values[1..], Next(p)) + rest)
  {
    hide Print;
    var vs, p := e.values, Next(Level(e));
    assert PrintBool(e.bop, vs, p) == Print(vs[0], p) + BoolTail(e.bop, vs[1..], Next(p));
  }

  lemma BoolProduction(e: Expr, tail: seq<Token>, rest: seq<Token>)
    requires e.BoolOp? && |e.values| > 1
    requires var p := Next(Level(e));
      Parse(p, Print(e.values[0], p) + tail) == Got(e.values[0], tail)
    requires BoolLoop(Level(e), tail) == GotList(e.values[1..], rest)
    ensures Parse(Level(e), Print(e.values[0], Next(Level(e))) + tail) == Got(e, rest)
  {
    hide Print, BoolLoop;
    var ts := Print(e.values[0], Next(Level(e))) + tail;
    assert Parse(Level(e), ts) == ParseBool(Level(e), ts);
    hide Parse;
    assert [e.values[0]] + e.values[1..] == e.values;
  }

  lemma {:induction false} BoolLoopRoundTrip(op: BoolOperator, vs: seq<Expr>, p: int, rest: seq<Token>)
    requires (forall v :: v in vs ==> WellFormed(v)) && BoolPrecedence(op) < p <= ATOM
    requires Stops(BoolPrecedence(op), rest)
    ensures BoolLoop(BoolPrecedence(op), BoolTail(op, vs, p) + rest) == GotList(vs, rest)
    decreases vs, 8
  {
    hide Parse, Print, PrintBool, WellFormed;
    var level := BoolPrecedence(op);
    if |vs| == 0 {
      assert BoolTail(op, vs, p) + rest == rest;
    } else {
      var tail := BoolTail(op, vs[1..], Next(p)) + rest;
      BoolTailStep(op, vs, p, rest);
      BoolTailStops(op, vs[1..], Next(p), rest);
      hide BoolLoop, BoolTail, Stops;
      RoundTrip(vs[0], p, level + 1, tail);
      BoolLoopRoundTrip(op, vs[1..], Next(p), rest);
      BoolLoopStep(op, vs, BoolTail(op, vs, p) + rest, tail, rest);
    }
  }

  // The operator ends an operand.
  lemma BoolTailStops(op: BoolOperator, vs: seq<Expr>, p: int, rest: seq<Token>)
    requires Stops(BoolPrecedence(op), rest)
    ensures Stops(BoolPrecedence(op) + 1, BoolTail(op, vs, p) + rest)
  {
    hide PrintBool;
    if |vs| == 0 {
      assert BoolTail(op, vs, p) + rest == rest;
    } else {
      assert (BoolTail(op, vs, p) + rest)[0] == BoolToken(op);
    }
  }

  lemma BoolLoopStep(op: BoolOperator, vs: seq<Expr>, ts: seq<Token>, tail: seq<Token>, rest: seq<Token>)
    requires |vs| > 0 && |ts| > 0 && ts[0] == BoolToken(op)
    requires Parse(BoolPrecedence(op) + 1, ts[1..]) == Got(vs[0], tail)
    requires BoolLoop(BoolPrecedence(op), tail) == GotList(vs[1..], rest)
    ensures BoolLoop(BoolPrecedence(op), ts) == GotList(vs, rest)
  {
    hide Parse;
    assert [vs[0]] + vs[1..] == vs;
  }

  lemma BoolTailStep(op: BoolOperator, vs: seq<Expr>, p: int, rest: seq<Token>)
    requires |vs| > 0
    ensures var ts := BoolTail(op, vs, p) + rest;
      |ts| > 0 && ts[0] == BoolToken(op)
      && ts[1..] == Print(vs[0], p) + (BoolTail(op, vs[1..], Next(p)) + rest)
  {
    hide Print;
    assert PrintBool(op, vs, p) == Print(vs[0], p) + BoolTail(op, vs[1..], Next(p));
    hide PrintBool;
    SkipFirst(BoolToken(op), Print(vs[0], p), BoolTail(op, vs[1..], Next(p)), rest);
  }

  // Behind the first token of [t] + a + b + rest.
  lemma SkipFirst<T>(t: T, a: seq<T>, b: seq<T>, rest: seq<T>)
    ensures var ts := [t] + (a + b) + rest;
      ts[0] == t && ts[1..] == a + (b + rest)
  {
  }

  // ----- comparisons -----

  lemma {:induction false} CompareRoundTrip(e: Expr, rest: seq<Token>)
    requires e.Compare? && WellFormed(e) && Stops(CMP, rest)
    ensures Parse(CMP, Body(e) + rest) == Got(e, rest)
    decreases e, 2
  {
    var tail := PrintComparisons(e.ops, e.comparators) + rest;
    ComparisonsStop(e.ops, e.comparators, rest);
    assert Body(e) + rest == Print(e.first, BOR) + tail;
    RoundTrip(e.first, BOR, BOR, tail);
    CompareLoopRoundTrip(e.ops, e.comparators, rest);
  }

  // A comparison operator does not continue an operand of a comparison.
  lemma ComparisonsStop(os: seq<CmpOperator>, cs: seq<Expr>, rest: seq<Token>)
    requires |os| == |cs| && Stops(CMP, rest)
    ensures Stops(BOR, PrintComparisons(os, cs) + rest)
  {
    if |cs| == 0 {
      assert PrintComparisons(os, cs) + rest == rest;
    } else {
      assert (PrintComparisons(os, cs) + rest)[0] == CmpTokens(os[0])[0];
    }
  }

  lemma {:induction false} CompareLoopRoundTrip(os: seq<CmpOperator>, cs: seq<Expr>, rest: seq<Token>)
    requires |os| == |cs| && (forall c :: c in cs ==> WellFormed(c)) && Stops(CMP, rest)
    ensures CompareLoop(PrintComparisons(os, cs) + rest) == GotCmp(os, cs, rest)
    decreases cs, 8
  {
    hide Parse, Print, WellFormed;
    if |cs| == 0 {
      assert PrintComparisons(os, cs) + rest == rest;
    } else {
      var tail := PrintComparisons(os[1..], cs[1..]) + rest;
      var operand := Print(cs[0], BOR) + tail;
      assert PrintComparisons(os, cs) + rest == CmpTokens(os[0]) + operand;
      hide PrintComparisons, CompareLoop;
      ComparisonsStop(os[1..], cs[1..], rest);
      PrintStarts(cs[0], BOR);
      StartsPlus(Print(cs[0], BOR), tail, BOR);
      RoundTrip(cs[0], BOR, BOR, tail);
      CompareLoopRoundTrip(os[1..], cs[1..], rest);
      CompareStep(os, cs, operand, tail, rest);
    }
  }

  lemma CompareStep(os: seq<CmpOperator>, cs: seq<Expr>, operand: seq<Token>, tail: seq<Token>, rest: seq<Token>)
    requires |os| == |cs| > 0 && StartsAt(operand, BOR)
    requires Parse(BOR, operand) == Got(cs[0], tail)
    requires CompareLoop(tail) == GotCmp(os[1..], cs[1..], rest)
    ensures CompareLoop(CmpTokens(os[0]) + operand) == GotCmp(os, cs, rest)
  {
    hide Parse, StartsAt, CmpAt, CmpTokens, Continues;
    ReadOperator(os[0], operand);
    assert [cs[0]] + cs[1..] == cs && [os[0]] + os[1..] == os;
  }

  // The operator is read back whole: "is" before an operand is never "is not".
  lemma ReadOperator(op: CmpOperator, operand: seq<Token>)
    requires StartsAt(operand, BOR)
    ensures var ts := CmpTokens(op) + operand;
      && Continues(ts, CMP) && CmpAt(ts) == (op, |CmpTokens(op)|)
      && 0 < |CmpTokens(op)| <= |ts| && ts[|CmpTokens(op)|..] == operand
  {
    var ts := CmpTokens(op) + operand;
    assert ts[|CmpTokens(op)|..] == operand;
    assert |CmpTokens(op)| == 1 ==> ts[1..] == operand;
    assert |CmpTokens(op)| == 2 ==> ts[1] == CmpTokens(op)[1];
  }

  // ----- tuples -----

  lemma {:induction false} TupleRoundTrip(e: Expr, rest: seq<Token>)
    requires e.Tuple? && |e.elts| > 0 && WellFormed(e) && Stops(TUPLE, rest)
    ensures Parse(TUPLE, Body(e) + rest) == Got(e, rest)
    decreases e, 2
  {
    TupleParts(e);
    hide Parse, Print, WellFormed;
    var es := e.elts;
    var tail := if |es| == 1 then [Comma] + rest else ItemTail(es[1..]) + rest;
    TupleBody(e, rest);
    RoundTrip(es[0], TEST, TUPLE + 1, tail);
    if |es| > 1 {
      ItemLoopRoundTrip(es[1..], rest);
    } else {
      assert tail[1..] == rest;
      assert ItemLoop(tail) == GotList([], rest);
    }
    assert [es[0]] + es[1..] == es;
    TupleProduction(e, tail, rest);
  }

  lemma TupleBody(e: Expr, rest: seq<Token>)
    requires e.Tuple? && |e.elts| > 0
    ensures Body(e) + rest
         == Print(e.elts[0], TEST) + (if |e.elts| == 1 then [Comma] + rest else ItemTail(e.elts[1..]) + rest)
  {
  }

  lemma TupleProduction(e: Expr, tail: seq<Token>, rest: seq<Token>)
    requires e.Tuple? && |e.elts| > 0 && StartsWith(tail, Comma)
    requires Parse(TUPLE + 1, Print(e.elts[0], TEST) + tail) == Got(e.elts[0], tail)
    requires ItemLoop(tail) == GotList(e.elts[1..], rest)
    ensures Parse(TUPLE, Print(e.elts[0], TEST) + tail) == Got(e, rest)
  {
    hide Print;
    var ts := Print(e.elts[0], TEST) + tail;
    assert Parse(TUPLE, ts) == ParseTuple(ts);
    assert [e.elts[0]] + e.elts[1..] == e.elts;
  }

  lemma {:induction false} ItemLoopRoundTrip(es: seq<Expr>, rest: seq<Token>)
    requires (forall x :: x in es ==> WellFormed(x)) && Stops(TUPLE, rest)
    ensures ItemLoop(ItemTail(es) + rest) == GotList(es, rest)
    decreases es, 8
  {
    hide Parse, Print, PrintItems, WellFormed;
    var ts := ItemTail(es) + rest;
    if |es| == 0 {
      assert ts == rest;
    } else {
      var tail := ItemTail(es[1..]) + rest;
      ItemTailStep(es, rest);
      PrintStarts(es[0], TEST);
      RoundTrip(es[0], TEST, TUPLE + 1, tail);
      ItemLoopRoundTrip(es[1..], rest);
      assert [es[0]] + es[1..] == es;
    }
  }

  lemma ItemTailStep(es: seq<Expr>, rest: seq<Token>)
    requires |es| > 0
    ensures var ts := ItemTail(es) + rest;
      |ts| > 0 && ts[0] == Comma && ts[1..] == Print(es[0], TEST) + (ItemTail(es[1..]) + rest)
  {
    hide Print;
    assert PrintItems(es) == Print(es[0], TEST) + ItemTail(es[1..]);
    hide PrintItems;
    SkipFirst(Comma, Print(es[0], TEST), ItemTail(es[1..]), rest);
  }

  // ----- parentheses are printed exactly where they are needed -----

  // What is read at a level is of that level or tighter, or an atom.
  lemma TightOrAtom(level: int, ts: seq<Token>, e: Expr, rest: seq<Token>)
    requires TUPLE <= level <= ATOM && Parse(level, ts) == Got(e, rest)
    ensures Level(e) >= level || Parse(ATOM, ts) == Got(e, rest)
    decreases ATOM - level
  {
    if level < ATOM {
      OwnOrTighter(level, ts, e, rest);
      if Parse(level + 1, ts) == Got(e, rest) {
        TightOrAtom(level + 1, ts, e, rest);
      }
    }
  }

  // A production makes a node of its own level or passes on what the next one reads.
  lemma OwnOrTighter(level: int, ts: seq<Token>, e: Expr, rest: seq<Token>)
    requires TUPLE <= level < ATOM && Parse(level, ts) == Got(e, rest)
    ensures Level(e) == level || Parse(level + 1, ts) == Got(e, rest)
  {
    if level == TUPLE {
      assert Parse(TUPLE, ts) == ParseTuple(ts);
    } else if level == TEST {
      assert Parse(TEST, ts) == ParseTest(ts);
    } else if level == OR || level == AND {
      assert Parse(level, ts) == ParseBool(level, ts);
      NoOperands(level, Parse(level + 1, ts).rest);
    } else if level == CMP {
      assert Parse(CMP, ts) == ParseCompare(ts);
      NoComparisons(Parse(BOR, ts).rest);
    } else if BOR <= level <= TERM {
      var first := Parse(level + 1, ts);
      BinaryNode(level, first.e, first.rest);
    } else if level == POWER {
      assert Parse(POWER, ts) == ParsePower(ts);
    }
  }

  // A loop that reads no operand consumes nothing.
  lemma NoOperands(level: int, ts: seq<Token>)
    requires level == OR || level == AND
    ensures BoolLoop(level, ts).GotList? && |BoolLoop(level, ts).es| == 0 ==> BoolLoop(level, ts).rest == ts
  {
    hide Parse;
  }

  lemma NoComparisons(ts: seq<Token>)
    ensures CompareLoop(ts).GotCmp? && |CompareLoop(ts).es| == 0 ==> CompareLoop(ts).rest == ts
  {
    hide Parse;
  }

  lemma {:induction false} BinaryNode(level: int, acc: Expr, ts: seq<Token>)
    requires BOR <= level <= TERM
    ensures var r := BinaryLoop(level, acc, ts);
      r.Got? ==> r == Got(acc, ts) || Level(r.e) == level
    decreases |ts|
  {
    if Continues(ts, level) {
      var rhs := Parse(level + 1, ts[1..]);
      if rhs.Got? {
        BinaryNode(level, BinOp(acc, BinaryOf(ts[0]), rhs.e), rhs.rest);
      }
    }
  }

  // The child a body starts with and the precedence it is printed at.
  function FirstChild(e: Expr): (Expr, int)
    requires WellFormed(e) && Level(e) < ATOM && !e.UnaryOp? && e != Tuple([])
  {
    match e
    case BinOp(l, op, _) => (l, LeftPrecedence(op))
    case BoolOp(op, vs) => (vs[0], Next(BoolPrecedence(op)))
    case Compare(f, _, _) => (f, Next(CMP))
    case IfExp(_, b, _) => (b, Next(TEST))
    case Tuple(es) => (es[0], TEST)
  }

  // More follows the first child.
  lemma FirstThenMore(e: Expr) returns (more: seq<Token>)
    requires WellFormed(e) && Level(e) < ATOM && !e.UnaryOp? && e != Tuple([])
    ensures var (c, p) := FirstChild(e);
      WellFormed(c) && c < e && p <= ATOM && Body(e) == Print(c, p) + more && |more| > 0
  {
    hide Print;
    match e
    case BinOp(l, op, r) =>
      more := [BinaryToken(op)] + Print(r, RightPrecedence(op));
    case BoolOp(op, vs) =>
      more := BoolTail(op, vs[1..], Next(Next(BoolPrecedence(op))));
    case Compare(f, os, cs) =>
      more := PrintComparisons(os, cs);
    case IfExp(t, b, o) =>
      more := [IfT] + Print(t, Next(TEST)) + [ElseT] + Print(o, TEST);
    case Tuple(es) =>
      more := if |es| == 1 then [Comma] else ItemTail(es[1..]);
  }

  // Read as an atom, a body that is none leaves something of itself unread.
  lemma {:induction false} AtomLeavesRest(e: Expr, rest: seq<Token>)
    requires WellFormed(e) && Level(e) < ATOM && e != Tuple([])
    ensures var r := Parse(ATOM, Body(e) + rest);
      r.Got? ==> |r.rest| > |rest|
    decreases e
  {
    hide Parse, Print, Body;
    if e.UnaryOp? {
      NoUnaryAtom(e, rest);
    } else {
      var (c, p) := FirstChild(e);
      var more := FirstThenMore(e);
      assert Body(e) + rest == Print(c, p) + (more + rest);
      FirstPrinted(c, p, more + rest);
      if Parenthesized(c, p) {
        ParenRoundTrip(c, more + rest);
      } else if c.Name? {
        NameAtom(c, more + rest);
      } else {
        AtomLeavesRest(c, more + rest);
      }
    }
  }

  lemma NoUnaryAtom(e: Expr, rest: seq<Token>)
    requires e.UnaryOp?
    ensures Parse(ATOM, Body(e) + rest) == Fail
  {
    hide Print;
    assert (Body(e) + rest)[0] == UnaryToken(e.uop);
  }

  lemma NameAtom(e: Expr, rest: seq<Token>)
    requires e.Name?
    ensures Parse(ATOM, Body(e) + rest) == Got(e, rest)
  {
    assert (Body(e) + rest)[1..] == rest;
  }

  lemma FirstPrinted(e: Expr, p: int, rest: seq<Token>)
    ensures Print(e, p) + rest
         == if Parenthesized(e, p) then [LPar] + (Body(e) + ([RPar] + rest)) else Body(e) + rest
  {
    hide Body;
    if Parenthesized(e, p) {
      assert [LPar] + Body(e) + [RPar] + rest == [LPar] + (Body(e) + ([RPar] + rest));
    }
  }

  // A node is put in parentheses exactly when the grammar would not read it without
  // them at the level it is printed at.
  lemma ParenthesesExactlyWhereNeeded(e: Expr, p: int, rest: seq<Token>)
    requires WellFormed(e) && TUPLE <= p <= ATOM && Stops(p, rest)
    ensures Parenthesized(e, p) <==> Parse(p, Body(e) + rest) != Got(e, rest)
  {
    if !Parenthesized(e, p) {
      BodyRoundTrip(e, p, rest);
    } else if e != Tuple([]) && Parse(p, Body(e) + rest) == Got(e, rest) {
      TightOrAtom(p, Body(e) + rest, e, rest);
      AtomLeavesRest(e, rest);
      assert false;
    }
  }

  // ----- the main result -----

  // Every expression is recovered from the text the unparser writes for it.
  lemma ParseUndoesUnparse(e: Expr)
    requires WellFormed(e)
    ensures ParseExpression(Print(e, TEST)) == Got(e, [])
  {
    RoundTrip(e, TEST, TUPLE, []);
    assert Print(e, TEST) + [] == Print(e, TEST);
  }

  // So two different expressions never have the same text.
  lemma UnparseInjective(a: Expr, b: Expr)
    requires WellFormed(a) && WellFormed(b) && Print(a, TEST) == Print(b, TEST)
    ensures a == b
  {
    ParseUndoesUnparse(a);
    ParseUndoesUnparse(b);
  }

  // The visitor and the parser, end to end.
  method UnparseThenParse(e: Expr) returns (parsed: Parsed)
    requires WellFormed(e)
    ensures parsed == Got(e, [])
  {
    var visitor := new Visitor();
    var tokens := visitor.Visit(e);
    ParseUndoesUnparse(e);
    parsed := ParseExpression(tokens);
  }
}
