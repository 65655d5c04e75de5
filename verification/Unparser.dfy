// The expression printer (_ast_unparse.py): a visitor that appends to _source and
// records, before each traversal, the precedence a child must be printed at.
module Unparser {
  import opened PyExpr

  // The precedence of the production a node is printed with; a node printed at a
  // higher precedence is put in parentheses.
  function Level(e: Expr): int {
    match e
    case Name(_) => ATOM
    case UnaryOp(op, _) => UnaryPrecedence(op)
    case BinOp(_, op, _) => BinaryPrecedence(op)
    case BoolOp(op, _) => BoolPrecedence(op)
    case Compare(_, _, _) => CMP
    case IfExp(_, _, _) => TEST
    case Tuple(_) => TUPLE
  }

  predicate Parenthesized(e: Expr, p: int) {
    p > Level(e) || e == Tuple([])
  }

  function LeftPrecedence(op: BinaryOperator): int {
    if op == Pow then Next(BinaryPrecedence(op)) else BinaryPrecedence(op)
  }

  function RightPrecedence(op: BinaryOperator): int {
    if op == Pow then BinaryPrecedence(op) else Next(BinaryPrecedence(op))
  }

  // ----- what is printed -----

  function Print(e: Expr, p: int): seq<Token>
    decreases e, 1
  {
    if Parenthesized(e, p) then [LPar] + Body(e) + [RPar] else Body(e)
  }

  function Body(e: Expr): seq<Token>
    decreases e, 0
  {
    match e
    case Name(id) => [NameT(id)]
    case UnaryOp(op, x) => [UnaryToken(op)] + Print(x, UnaryPrecedence(op))
    case BinOp(l, op, r) => Print(l, LeftPrecedence(op)) + [BinaryToken(op)] + Print(r, RightPrecedence(op))
    case BoolOp(op, vs) => PrintBool(op, vs, Next(BoolPrecedence(op)))
    case Compare(f, os, cs) => Print(f, Next(CMP)) + PrintComparisons(os, cs)
    case IfExp(t, b, o) => Print(b, Next(TEST)) + [IfT] + Print(t, Next(TEST)) + [ElseT] + Print(o, TEST)
    case Tuple(es) => if |es| == 1 then Print(es[0], TEST) + [Comma] else PrintItems(es)
  }

  // The operands, each one precedence higher than the one before it.
  function PrintBool(op: BoolOperator, vs: seq<Expr>, p: int): seq<Token>
    decreases vs
  {
    if |vs| == 0 then []
    else if |vs| == 1 then Print(vs[0], p)
    else Print(vs[0], p) + [BoolToken(op)] + PrintBool(op, vs[1..], Next(p))
  }

  function PrintComparisons(os: seq<CmpOperator>, cs: seq<Expr>): seq<Token>
    decreases cs
  {
    if |os| == 0 || |cs| == 0 then []
    else CmpTokens(os[0]) + Print(cs[0], Next(CMP)) + PrintComparisons(os[1..], cs[1..])
  }

  function PrintItems(es: seq<Expr>): seq<Token>
    decreases es
  {
    if |es| == 0 then []
    else if |es| == 1 then Print(es[0], TEST)
    else Print(es[0], TEST) + [Comma] + PrintItems(es[1..])
  }

  // ----- the visitor -----

  // A node of a tree without shared nodes is identified by its position: the
  // indices of the children that lead to it.
  type Path = seq<nat>

  // The node at q is inside the node at path.
  predicate Below(path: Path, q: Path) { |path| < |q| && q[..|path|] == path }

  lemma BelowChild(path: Path, i: nat, q: Path)
    ensures Below(path + [i], q) <==> Below(path, q) && q[|path|] == i && |q| > |path| + 1
  {
    var child := path + [i];
    if Below(child, q) {
      assert q[..|path|] == child[..|path|] == path;
      assert q[|path|] == child[|path|];
    }
    if Below(path, q) && q[|path|] == i && |q| > |path| + 1 {
      assert q[..|path| + 1] == path + [i];
    }
  }

  lemma BelowAnyChild(path: Path, i: nat)
    ensures forall q :: Below(path + [i], q) <==> Below(path, q) && q[|path|] == i && |q| > |path| + 1
    ensures Below(path, path + [i]) && (path + [i])[|path|] == i
    ensures forall q :: Below(path, q) && q[|path|] == i && |q| == |path| + 1 ==> q == path + [i]
  {
    forall q ensures Below(path + [i], q) <==> Below(path, q) && q[|path|] == i && |q| > |path| + 1 {
      BelowChild(path, i, q);
    }
    assert (path + [i])[..|path|] == path;
    forall q | Below(path, q) && q[|path|] == i && |q| == |path| + 1 ensures q == path + [i] {
      assert q == q[..|path|] + [q[|path|]];
    }
  }

  // Appending pieces one by one appends their concatenation.
  lemma AppendAll<T>(s: seq<T>, a: seq<T>, b: seq<T>, c: seq<T>, d: seq<T>, f: seq<T>)
    ensures s + a + b + c + d + f == s + (a + b + c + d + f)
  {
  }

  lemma AppendTwo<T>(s: seq<T>, a: seq<T>, b: seq<T>)
    ensures s + a + b == s + (a + b)
  {
  }

  lemma AppendThree<T>(s: seq<T>, a: seq<T>, b: seq<T>, c: seq<T>)
    ensures s + a + b + c == s + (a + b + c)
  {
  }

  lemma NextComparison(os: seq<CmpOperator>, cs: seq<Expr>, i: nat, s: seq<Token>)
    requires |os| == |cs| && i < |cs|
    ensures s + PrintComparisons(os[i..], cs[i..])
         == s + CmpTokens(os[i]) + Print(cs[i], Next(CMP)) + PrintComparisons(os[i + 1..], cs[i + 1..])
  {
    assert cs[i..][0] == cs[i] && cs[i..][1..] == cs[i + 1..];
    assert os[i..][0] == os[i] && os[i..][1..] == os[i + 1..];
  }

  lemma NoComparisons(os: seq<CmpOperator>, cs: seq<Expr>, s: seq<Token>)
    requires |cs| == 0
    ensures s + PrintComparisons(os, cs) == s
  {
  }

  lemma WellFormedParts(e: Expr)
    requires e.Compare? && WellFormed(e)
    ensures WellFormed(e.first) && |e.ops| == |e.comparators|
    ensures forall i :: 0 <= i < |e.comparators| ==> WellFormed(e.comparators[i])
  {
  }

  lemma TupleParts(e: Expr)
    requires e.Tuple? && WellFormed(e)
    ensures forall x :: x in e.elts ==> WellFormed(x)
  {
  }

  // The items that follow the first, each behind a comma.
  function ItemTail(es: seq<Expr>): seq<Token> {
    if |es| == 0 then [] else [Comma] + PrintItems(es)
  }

  // What is still to be written when the first i items are.
  function ItemsFrom(es: seq<Expr>, i: nat): seq<Token>
    requires i <= |es|
  {
    if i == 0 then PrintItems(es) else ItemTail(es[i..])
  }

  lemma NextItem(es: seq<Expr>, i: nat, s: seq<Token>)
    requires i < |es|
    ensures s + ItemsFrom(es, i)
         == (if i > 0 then s + [Comma] else s) + Print(es[i], TEST) + ItemsFrom(es, i + 1)
  {
    hide Print;
    assert es[i..][0] == es[i] && es[i..][1..] == es[i + 1..];
  }

  lemma NoItems(es: seq<Expr>, s: seq<Token>)
    ensures s + ItemsFrom(es, |es|) == s
  {
  }

  class Visitor {
    var source: seq<Token>
    var precedences: map<Path, int>

    constructor ()
      ensures source == [] && precedences == map[]
    {
      source, precedences := [], map[];
    }

    function GetPrecedence(path: Path): int
      reads this`precedences
    {
      if path in precedences then precedences[path] else TEST
    }

    // Nothing is recorded for the children from number i on, nor inside them.
    ghost predicate FreshFrom(path: Path, i: nat)
      reads this`precedences
    {
      forall q :: Below(path, q) && q[|path|] >= i ==> q !in precedences
    }

    // The children from number i to n have been given the precedence p, and nothing
    // inside them is recorded.
    ghost predicate PreparedFrom(path: Path, i: nat, n: nat, p: int)
      reads this`precedences
    {
      && (forall q :: Below(path, q) && q[|path|] >= i && q in precedences ==>
            |q| == |path| + 1 && q[|path|] < n && precedences[q] == p)
      && (forall j: nat :: i <= j < n ==> path + [j] in precedences)
    }

    // Since the old state, only nodes inside the one at path were given precedences.
    twostate predicate OnlyBelow(path: Path)
      reads this`precedences
    {
      forall q :: !Below(path, q) ==>
        (q in precedences <==> q in old(precedences)) && (q in precedences ==> precedences[q] == old(precedences)[q])
    }

    method Write(tokens: seq<Token>)
      modifies this`source
      ensures source == old(source) + tokens
    {
      source := source + tokens;
    }

    method SetPrecedence(precedence: int, path: Path)
      modifies this`precedences
      ensures precedences == old(precedences)[path := precedence]
    {
      precedences := precedences[path := precedence];
    }

    // visit: the text of a whole tree
    method Visit(e: Expr) returns (tokens: seq<Token>)
      requires WellFormed(e) && precedences == map[]
      modifies this
      ensures tokens == Print(e, TEST)
    {
      source := [];
      Traverse(e, []);
      assert [] + Print(e, TEST) == Print(e, TEST);
      tokens := source;
    }

    // Dispatches to the visit method of the node, inside parentheses when its
    // recorded precedence requires them.
    method Traverse(e: Expr, path: Path)
      requires WellFormed(e) && FreshFrom(path, 0)
      modifies this
      ensures source == old(source) + Print(e, old(GetPrecedence(path)))
      ensures OnlyBelow(path)
      decreases e, 3
    {
      var parens := Parenthesized(e, GetPrecedence(path));
      if parens {
        Write([LPar]);
      }
      VisitNode(e, path);
      if parens {
        Write([RPar]);
      }
    }

    method VisitNode(e: Expr, path: Path)
      requires WellFormed(e) && FreshFrom(path, 0)
      modifies this
      ensures source == old(source) + Body(e)
      ensures OnlyBelow(path)
      decreases e, 2
    {
      match e
      case Name(id) => Write([NameT(id)]);
      case UnaryOp(_, _) => VisitUnaryOp(e, path);
      case BinOp(_, _, _) => VisitBinOp(e, path);
      case BoolOp(_, _) => VisitBoolOp(e, path);
      case Compare(_, _, _) => VisitCompare(e, path);
      case IfExp(_, _, _) => VisitIfExp(e, path);
      case Tuple(_) => VisitTuple(e, path);
    }

    // Gives a child its precedence and traverses it; the later children stay fresh.
    method SetAndTraverse(precedence: int, e: Expr, path: Path, i: nat)
      requires WellFormed(e) && FreshFrom(path, i)
      modifies this
      ensures source == old(source) + Print(e, precedence)
      ensures OnlyBelow(path) && FreshFrom(path, i + 1)
      decreases e, 4
    {
      BelowAnyChild(path, i);
      SetPrecedence(precedence, path + [i]);
      Traverse(e, path + [i]);
    }

    method VisitUnaryOp(e: Expr, path: Path)
      requires e.UnaryOp? && WellFormed(e) && FreshFrom(path, 0)
      modifies this
      ensures source == old(source) + Body(e)
      ensures OnlyBelow(path)
      decreases e, 1
    {
      hide Print, Parenthesized, FreshFrom;
      AppendTwo(source, [UnaryToken(e.uop)], Print(e.operand, UnaryPrecedence(e.uop)));
      Write([UnaryToken(e.uop)]);
      SetAndTraverse(UnaryPrecedence(e.uop), e.operand, path, 0);
    }

    method VisitBinOp(e: Expr, path: Path)
      requires e.BinOp? && WellFormed(e) && FreshFrom(path, 0)
      modifies this
      ensures source == old(source) + Body(e)
      ensures OnlyBelow(path)
      decreases e, 1
    {
      hide Print, Parenthesized, FreshFrom;
      AppendThree(source, Print(e.left, LeftPrecedence(e.op)), [BinaryToken(e.op)],
                  Print(e.right, RightPrecedence(e.op)));
      SetAndTraverse(LeftPrecedence(e.op), e.left, path, 0);
      Write([BinaryToken(e.op)]);
      SetAndTraverse(RightPrecedence(e.op), e.right, path, 1);
    }

    // visit_BoolOp: each operand one precedence higher than the one before.
    method VisitBoolOp(e: Expr, path: Path)
      requires e.BoolOp? && WellFormed(e) && FreshFrom(path, 0)
      modifies this
      ensures source == old(source) + Body(e)
      ensures OnlyBelow(path)
      decreases e, 1
    {
      var vs := e.values;
      var precedence := BoolPrecedence(e.bop);
      var i := 0;
      while i < |vs|
        invariant 0 <= i <= |vs|
        invariant OnlyBelow(path) && FreshFrom(path, i)
        invariant source + (if 0 < i < |vs| then [BoolToken(e.bop)] else [])
                + PrintBool(e.bop, vs[i..], Next(precedence)) == old(source) + Body(e)
      {
        assert vs[i..][0] == vs[i] && vs[i..][1..] == vs[i + 1..];
        if i > 0 {
          Write([BoolToken(e.bop)]);
        }
        precedence := Next(precedence);
        SetAndTraverse(precedence, vs[i], path, i);
        i := i + 1;
      }
    }

    // visit_Compare: all the operands get their precedence before any is traversed.
    method VisitCompare(e: Expr, path: Path)
      requires e.Compare? && WellFormed(e) && FreshFrom(path, 0)
      modifies this
      ensures source == old(source) + Body(e)
      ensures OnlyBelow(path)
      decreases e, 1
    {
      hide Print, Parenthesized, FreshFrom, PreparedFrom, PrintComparisons;
      var n := |e.comparators| + 1;
      ghost var s0 := source;
      PrepareChildren(path, n, Next(CMP));
      TraversePrepared(e.first, path, 0, n, Next(CMP));
      VisitComparators(e, path, n);
      AppendTwo(s0, Print(e.first, Next(CMP)), PrintComparisons(e.ops, e.comparators));
    }

    // The operators and the operands after the first.
    method VisitComparators(e: Expr, path: Path, n: nat)
      requires e.Compare? && WellFormed(e) && n == |e.comparators| + 1 && PreparedFrom(path, 1, n, Next(CMP))
      modifies this
      ensures source == old(source) + PrintComparisons(e.ops, e.comparators)
      ensures OnlyBelow(path)
      decreases e, 0
    {
      WellFormedParts(e);
      hide Print, Parenthesized, FreshFrom, PreparedFrom, WellFormed, PrintComparisons, CmpTokens, Next;
      var os, cs := e.ops, e.comparators;
      ghost var total := source + PrintComparisons(os, cs);
      var i := 0;
      assert os[0..] == os && cs[0..] == cs;
      while i < |cs|
        invariant 0 <= i <= |cs|
        invariant OnlyBelow(path) && PreparedFrom(path, i + 1, n, Next(CMP))
        invariant source + PrintComparisons(os[i..], cs[i..]) == total
      {
        NextComparison(os, cs, i, source);
        Write(CmpTokens(os[i]));
        TraversePrepared(cs[i], path, i + 1, n, Next(CMP));
        i := i + 1;
      }
      NoComparisons(os[i..], cs[i..], source);
    }

    // set_precedence on the children 0 to n - 1
    method PrepareChildren(path: Path, n: nat, precedence: int)
      requires FreshFrom(path, 0)
      modifies this`precedences
      ensures OnlyBelow(path) && PreparedFrom(path, 0, n, precedence) && FreshFrom(path, n)
    {
      var i := 0;
      while i < n
        invariant 0 <= i <= n
        invariant OnlyBelow(path) && PreparedFrom(path, 0, i, precedence)
      {
        BelowAnyChild(path, i);
        SetPrecedence(precedence, path + [i]);
        i := i + 1;
      }
    }

    method TraversePrepared(e: Expr, path: Path, i: nat, n: nat, precedence: int)
      requires WellFormed(e) && i < n && PreparedFrom(path, i, n, precedence)
      modifies this
      ensures source == old(source) + Print(e, precedence)
      ensures OnlyBelow(path) && PreparedFrom(path, i + 1, n, precedence)
      decreases e, 4
    {
      BelowAnyChild(path, i);
      Traverse(e, path + [i]);
      forall j: nat | i + 1 <= j < n ensures path + [j] in precedences {
        BelowAnyChild(path, j);
      }
    }

    // visit_IfExp: the body is child 0, the test child 1, the alternative child 2.
    method VisitIfExp(e: Expr, path: Path)
      requires e.IfExp? && WellFormed(e) && FreshFrom(path, 0)
      modifies this
      ensures source == old(source) + Body(e)
      ensures OnlyBelow(path)
      decreases e, 1
    {
      hide Print, Parenthesized;
      ghost var s0 := source;
      assert Body(e) == Print(e.body, Next(TEST)) + [IfT] + Print(e.test, Next(TEST)) + [ElseT] + Print(e.orelse, TEST);
      hide Body;
      PrepareChildren(path, 2, Next(TEST));
      TraversePrepared(e.body, path, 0, 2, Next(TEST));
      Write([IfT]);
      TraversePrepared(e.test, path, 1, 2, Next(TEST));
      Write([ElseT]);
      PreparedIsFresh(path, 2, Next(TEST));
      SetAndTraverse(TEST, e.orelse, path, 2);
      AppendAll(s0, Print(e.body, Next(TEST)), [IfT], Print(e.test, Next(TEST)), [ElseT], Print(e.orelse, TEST));
    }

    lemma PreparedIsFresh(path: Path, n: nat, p: int)
      requires PreparedFrom(path, n, n, p)
      ensures FreshFrom(path, n)
    {
    }

    // visit_Tuple: the items keep the default precedence.
    method VisitTuple(e: Expr, path: Path)
      requires e.Tuple? && WellFormed(e) && FreshFrom(path, 0)
      modifies this
      ensures source == old(source) + Body(e)
      ensures OnlyBelow(path)
      decreases e, 1
    {
      hide Print, Parenthesized;
      var es := e.elts;
      TupleParts(e);
      if |es| == 1 {
        AppendTwo(source, Print(es[0], TEST), [Comma]);
        TraverseFresh(es[0], path, 0);
        Write([Comma]);
      } else {
        VisitItems(e, path);
      }
    }

    // Two items or more, or none.
    method VisitItems(e: Expr, path: Path)
      requires e.Tuple? && WellFormed(e) && |e.elts| != 1 && FreshFrom(path, 0)
      modifies this
      ensures source == old(source) + PrintItems(e.elts)
      ensures OnlyBelow(path)
      decreases e, 0
    {
      TupleParts(e);
      hide Print, Parenthesized, WellFormed, FreshFrom, PrintItems, ItemTail, Body;
      var es := e.elts;
      ghost var total := source + PrintItems(es);
      assert ItemsFrom(es, 0) == PrintItems(es);
      hide ItemsFrom;
      var i := 0;
      while i < |es|
        invariant 0 <= i <= |es|
        invariant OnlyBelow(path) && FreshFrom(path, i)
        invariant source + ItemsFrom(es, i) == total
      {
        NextItem(es, i, source);
        if i > 0 {
          Write([Comma]);
        }
        TraverseFresh(es[i], path, i);
        i := i + 1;
      }
      NoItems(es, source);
    }

    method TraverseFresh(e: Expr, path: Path, i: nat)
      requires WellFormed(e) && FreshFrom(path, i)
      modifies this
      ensures source == old(source) + Print(e, TEST)
      ensures OnlyBelow(path) && FreshFrom(path, i + 1)
      decreases e, 4
    {
      BelowAnyChild(path, i);
      Traverse(e, path + [i]);
    }
  }
}
