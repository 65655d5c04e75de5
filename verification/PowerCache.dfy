// compute_powers (_pylong.py): plans and computes, in advance, exactly the powers
// that a divide-and-conquer algorithm over widths will look up.
module PowerCache {
  import opened Powers

  // The half whose power is needed when splitting width w.
  function Which(w: int, needHi: bool): int {
    if needHi then w - w / 2 else w / 2
  }

  function Abs(w: int): nat { if w < 0 then -w else w }

  // The exponents looked up by a recursion that stops at widths up to the limit and
  // otherwise uses the power of one half and recurs on both.  Only -1, 0 and 1 have a
  // half that is the width itself, which has been seen by then.
  function Consumer(w: int, limit: int, needHi: bool): set<int>
    decreases Abs(w)
  {
    if w <= limit then {}
    else
      {Which(w, needHi)}
      + (if w / 2 == w then {} else Consumer(w / 2, limit, needHi))
      + (if w - w / 2 == w then {} else Consumer(w - w / 2, limit, needHi))
  }

  ghost predicate Within(s: set<int>, lo: int, hi: int) { forall e :: e in s ==> lo <= e <= hi }

  lemma {:induction false} ConsumerRange(w: int, limit: int, needHi: bool)
    ensures Within(Consumer(w, limit, needHi), if w < 0 then w else 0, if w < 0 then 0 else w)
    decreases Abs(w)
  {
    if w > limit {
      if w / 2 != w {
        ConsumerRange(w / 2, limit, needHi);
      }
      if w - w / 2 != w {
        ConsumerRange(w - w / 2, limit, needHi);
      }
    }
  }

  // A width set from which the whole recursion on w can be read off.
  ghost predicate ClosedUnderHalving(widths: set<int>, limit: int) {
    forall v :: v in widths && v > limit ==> Halves(v, widths, limit)
  }

  // The halves of v that are still above the limit are in the set.
  ghost predicate Halves(v: int, widths: set<int>, limit: int) {
    (v / 2 > limit ==> v / 2 in widths) && (v - v / 2 > limit ==> v - v / 2 in widths)
  }

  // Every width in the set has its needed half among the exponents.
  ghost predicate Supplied(widths: set<int>, need: set<int>, needHi: bool) {
    forall v :: v in widths ==> Which(v, needHi) in need
  }

  lemma {:induction false} ConsumerInNeed(w: int, widths: set<int>, need: set<int>, limit: int, needHi: bool)
    requires ClosedUnderHalving(widths, limit) && Supplied(widths, need, needHi)
    requires w > limit ==> w in widths
    ensures Consumer(w, limit, needHi) <= need
    decreases Abs(w)
  {
    hide ClosedUnderHalving, Supplied, Which;
    if w > limit {
      WidthFacts(w, widths, need, limit, needHi);
      if w / 2 != w {
        ConsumerInNeed(w / 2, widths, need, limit, needHi);
      }
      if w - w / 2 != w {
        ConsumerInNeed(w - w / 2, widths, need, limit, needHi);
      }
    }
  }

  lemma WidthFacts(w: int, widths: set<int>, need: set<int>, limit: int, needHi: bool)
    requires ClosedUnderHalving(widths, limit) && Supplied(widths, need, needHi)
    requires w > limit && w in widths
    ensures w / 2 > limit ==> w / 2 in widths
    ensures w - w / 2 > limit ==> w - w / 2 in widths
    ensures Which(w, needHi) in need
  {
    assert Halves(w, widths, limit);
  }

  // The widths met by the recursion on w.
  function Widths(w: int, limit: int): set<int>
    decreases Abs(w)
  {
    if w <= limit then {}
    else
      {w}
      + (if w / 2 == w then {} else Widths(w / 2, limit))
      + (if w - w / 2 == w then {} else Widths(w - w / 2, limit))
  }

  lemma {:induction false} WidthsTransitive(w: int, v: int, limit: int)
    requires v in Widths(w, limit)
    ensures Widths(v, limit) <= Widths(w, limit)
    ensures limit < v
    decreases Abs(w)
  {
    if v != w {
      if w / 2 != w && v in Widths(w / 2, limit) {
        WidthsTransitive(w / 2, v, limit);
      } else {
        WidthsTransitive(w - w / 2, v, limit);
      }
    }
  }

  lemma {:induction false} WhichIsNeeded(w: int, v: int, limit: int, needHi: bool)
    requires v in Widths(w, limit)
    ensures Which(v, needHi) in Consumer(w, limit, needHi)
    decreases Abs(w)
  {
    if v != w {
      if w / 2 != w && v in Widths(w / 2, limit) {
        WhichIsNeeded(w / 2, v, limit, needHi);
      } else {
        WhichIsNeeded(w - w / 2, v, limit, needHi);
      }
    }
  }

  // ----- the three loops of compute_powers -----

  // What the worklist loop keeps: every width seen has its wide halves seen or
  // waiting, and nothing outside the recursion is ever queued.
  ghost predicate Planning(w: int, limit: int, needHi: bool, seen: set<int>, need: set<int>, ws: set<int>) {
    && Supplied(seen, need, needHi) && need <= Consumer(w, limit, needHi)
    && seen <= Widths(w, limit)
    && (forall v :: v in ws && v > limit ==> v in Widths(w, limit))
    && (w > limit ==> w in seen + ws)
    && (forall v :: v in seen ==> Halves(v, seen + ws, limit))
    && (!needHi ==> forall e :: e in need && e > limit ==> e in seen + ws)
  }

  lemma SomeMember(s: set<int>)
    requires s != {}
    ensures exists x :: x in s
  {
    if !(exists x :: x in s) {
      assert false;
    }
  }

  // First loop: a worklist over widths.
  method Plan(w: int, limit: int, needHi: bool) returns (need: set<int>)
    ensures need == Consumer(w, limit, needHi)
    ensures !needHi ==> HalvingClosed(need, limit)
  {
    hide *;
    var seen: set<int> := {};
    need := {};
    var ws: set<int> := {w};
    PlanningStart(w, limit, needHi);
    while ws != {}
      invariant Planning(w, limit, needHi, seen, need, ws)
      decreases Widths(w, limit) - seen, ws
    {
      SomeMember(ws);
      var v :| v in ws;
      ghost var ws0 := ws;
      ws := ws - {v};
      if v in seen || v <= limit {
        PlanningSkip(w, limit, needHi, seen, need, ws0, v);
        continue;
      }
      var lo := v / 2;
      var hi := v - lo;
      var which := if needHi then hi else lo;
      ghost var seen0, need0 := seen, need;
      seen := seen + {v};
      need := need + {which};
      ws := ws + {which};
      if lo != hi {
        ws := ws + {v - which};
      }
      assert ws == ws0 - {v} + {lo, hi};
      PlanningStep(w, limit, needHi, seen0, need0, ws0, v);
    }
    PlanningEnd(w, limit, needHi, seen, need);
  }

  lemma PlanningStart(w: int, limit: int, needHi: bool)
    ensures Planning(w, limit, needHi, {}, {}, {w})
  {
    if w > limit {
      HalvesInWidths(w, limit);
    }
  }

  lemma PlanningSkip(w: int, limit: int, needHi: bool, seen: set<int>, need: set<int>, ws: set<int>, v: int)
    requires Planning(w, limit, needHi, seen, need, ws) && (v in seen || v <= limit)
    ensures Planning(w, limit, needHi, seen, need, ws - {v})
  {
    forall u | u in seen ensures Halves(u, seen + (ws - {v}), limit) {
      assert Halves(u, seen + ws, limit);
    }
  }

  lemma PlanningStep(w: int, limit: int, needHi: bool, seen: set<int>, need: set<int>, ws: set<int>, v: int)
    requires Planning(w, limit, needHi, seen, need, ws) && v in ws && v !in seen && v > limit
    ensures Planning(w, limit, needHi, seen + {v}, need + {Which(v, needHi)}, ws - {v} + {v / 2, v - v / 2})
    ensures v in Widths(w, limit)
    ensures Which(v, needHi) == if needHi then v - v / 2 else v / 2
  {
    hide Widths, Consumer;
    WidthsTransitive(w, v, limit);
    HalvesInWidths(v, limit);
    WhichIsNeeded(w, v, limit, needHi);
    var seen', ws' := seen + {v}, ws - {v} + {v / 2, v - v / 2};
    forall u | u in seen' ensures Halves(u, seen' + ws', limit) {
      assert u != v ==> Halves(u, seen + ws, limit);
    }
  }

  lemma PlanningEnd(w: int, limit: int, needHi: bool, seen: set<int>, need: set<int>)
    requires Planning(w, limit, needHi, seen, need, {})
    ensures need == Consumer(w, limit, needHi)
    ensures !needHi ==> HalvingClosed(need, limit)
  {
    hide Consumer, Widths;
    assert seen + {} == seen;
    ConsumerInNeed(w, seen, need, limit, needHi);
    if !needHi {
      forall e | e in need && e > limit ensures e / 2 in need {
        assert e in seen;
        assert Which(e, needHi) in need;
      }
    }
  }

  // With the low halves, the half of a needed exponent above the limit is needed too.
  ghost predicate HalvingClosed(need: set<int>, limit: int) {
    forall e :: e in need && e > limit ==> e / 2 in need
  }

  lemma HalvesInWidths(v: int, limit: int)
    requires v > limit
    ensures v in Widths(v, limit)
    ensures v / 2 > limit ==> v / 2 in Widths(v, limit)
    ensures v - v / 2 > limit ==> v - v / 2 in Widths(v, limit)
  {
    if v / 2 != v && v / 2 > limit {
      assert v / 2 in Widths(v / 2, limit);
    }
    if v - v / 2 != v && v - v / 2 > limit {
      assert v - v / 2 in Widths(v - v / 2, limit);
    }
  }

  method Max(s: set<int>) returns (m: int)
    requires s != {}
    ensures m in s && forall x :: x in s ==> x <= m
  {
    SomeMember(s);
    m :| m in s;
    var rest := s - {m};
    while rest != {}
      invariant m in s && rest <= s
      invariant forall x :: x in s ==> x in rest || x <= m
      decreases rest
    {
      SomeMember(rest);
      var x :| x in rest;
      rest := rest - {x};
      if x > m {
        m := x;
      }
    }
  }

  // Every exponent above twice the limit is a cheap step from a smaller one:
  // one multiplication by the base, a squaring, or both.
  ghost predicate Reachable(n: int, exponents: set<int>, limit: int) {
    n / 2 > limit ==> n - 1 in exponents || n / 2 in exponents
  }

  // ----- when the second loop ends -----

  lemma {:induction false} MaxExists(s: set<int>)
    requires s != {}
    ensures exists m :: m in s && forall x :: x in s ==> x <= m
    decreases |s|
  {
    SomeMember(s);
    var x :| x in s;
    if !(forall y :: y in s ==> y <= x) {
      var y :| y in s && y > x;
      assert y in s - {x};
      MaxExists(s - {x});
      var m :| m in s - {x} && forall z :: z in s - {x} ==> z <= m;
      assert m in s && forall z :: z in s ==> z in s - {x} || z == x;
    }
  }

  ghost function MaxOf(s: set<int>): (m: int)
    requires s != {}
    ensures m in s && forall x :: x in s ==> x <= m
  {
    MaxExists(s);
    var m :| m in s && forall x :: x in s ==> x <= m;
    m
  }

  // The candidates after one pass of the loop.
  ghost function AfterPass(cands: set<int>, limit: int): set<int>
    requires cands != {}
  {
    var w := MaxOf(cands);
    var rest := cands - {w};
    if w / 2 > limit && w - 1 !in rest && w / 2 !in rest then rest + {w / 2} else rest
  }

  // The candidates after k passes, or none if the loop has ended by then.
  ghost function After(cands: set<int>, limit: int, k: nat): set<int> {
    if k == 0 then cands
    else
      var before := After(cands, limit, k - 1);
      if before == {} then {} else AfterPass(before, limit)
  }

  ghost predicate EndsWithin(cands: set<int>, limit: int, k: nat) { After(cands, limit, k) == {} }

  ghost predicate LoopEnds(cands: set<int>, limit: int) { exists k: nat :: EndsWithin(cands, limit, k) }

  // With a limit of at least 0 every pass lowers the largest candidate.
  lemma {:induction false} PassesDrain(cands: set<int>, limit: int, bound: nat, k: nat)
    requires limit >= 0 && forall e :: e in cands ==> 0 <= e < bound
    ensures forall e :: e in After(cands, limit, k) ==> 0 <= e < bound - k
  {
    if k > 0 {
      PassesDrain(cands, limit, bound, k - 1);
    }
  }

  // A candidate up to 0 is never lost for good: the smallest one is halved towards 0 or
  // -1, each of which is its own half.
  ghost predicate Endless(cands: set<int>, limit: int) {
    (forall c :: c in cands ==> limit < c) && exists e :: e in cands && e <= 0
  }

  lemma EndlessPass(cands: set<int>, limit: int)
    requires Endless(cands, limit)
    ensures cands != {} && Endless(AfterPass(cands, limit), limit)
  {
    var e :| e in cands && e <= 0;
    assert cands != {};
    var w := MaxOf(cands);
    var next := AfterPass(cands, limit);
    if w != e {
      assert e in next;
    } else if w - 1 in cands {
      assert w - 1 in next;
    } else {
      assert w / 2 > limit && w / 2 in next;
    }
  }

  lemma {:induction false} EndlessForever(cands: set<int>, limit: int, k: nat)
    requires Endless(cands, limit)
    ensures Endless(After(cands, limit, k), limit)
  {
    if k > 0 {
      EndlessForever(cands, limit, k - 1);
      EndlessPass(After(cands, limit, k - 1), limit);
    }
  }

  // Below 0 the recursion looks up an exponent that no pass gets away from.
  lemma {:induction false} NegativeLimit(w: int, limit: int, needHi: bool)
    requires limit < 0 && w > limit
    ensures Endless(Consumer(w, limit, needHi), limit)
    decreases Abs(w)
  {
    ConsumerRange(w, limit, needHi);
    if w / 2 != w && w / 2 > limit && (w > 0 || w < -1) {
      NegativeLimit(w / 2, limit, needHi);
      var e :| e in Consumer(w / 2, limit, needHi) && e <= 0;
      assert e in Consumer(w, limit, needHi);
    } else {
      assert Which(w, needHi) in Consumer(w, limit, needHi);
    }
  }

  // The loop ends exactly when the limit is not negative or there is nothing to plan.
  lemma EndsExactlyWhen(w: int, limit: int, needHi: bool)
    ensures LoopEnds(Consumer(w, limit, needHi), limit) <==> limit >= 0 || w <= limit
  {
    var need := Consumer(w, limit, needHi);
    if w <= limit {
      assert EndsWithin(need, limit, 0);
    } else if limit >= 0 {
      ConsumerRange(w, limit, needHi);
      Drained(need, limit, w + 1);
    } else {
      NegativeLimit(w, limit, needHi);
      NeverEnds(need, limit);
    }
  }

  lemma Drained(cands: set<int>, limit: int, bound: nat)
    requires limit >= 0 && forall e :: e in cands ==> 0 <= e < bound
    ensures LoopEnds(cands, limit)
  {
    PassesDrain(cands, limit, bound, bound);
    if !EndsWithin(cands, limit, bound) {
      SomeMember(After(cands, limit, bound));
      assert false;
    }
  }

  lemma NeverEnds(cands: set<int>, limit: int)
    requires Endless(cands, limit)
    ensures !LoopEnds(cands, limit)
  {
    forall k: nat ensures !EndsWithin(cands, limit, k) {
      EndlessForever(cands, limit, k);
    }
  }

  // The smallest case: at limit -1 the candidate 0 comes back in every pass.
  lemma ZeroComesBack(limit: int, needHi: bool)
    requires limit == -1
    ensures Consumer(0, limit, needHi) == {0} && AfterPass({0}, limit) == {0}
  {
    assert MaxOf({0}) == 0;
  }

  // What the second loop keeps: the candidates are within the bound, and every other
  // exponent is above it and reachable.
  ghost predicate Extending(need: set<int>, extra: set<int>, cands: set<int>, limit: int, bound: int) {
    && cands <= need + extra && extra !! need && (limit >= 0 || extra == {} == cands)
    && (forall e :: e in need + extra ==> e >= 0)
    && (forall e :: e in need + extra && e !in cands ==> bound < e && Reachable(e, need + extra, limit))
    && (forall c :: c in cands ==> c <= bound)
    && (HalvingClosed(need, limit) ==> extra == {})
  }

  lemma ExtendStep(need: set<int>, extra: set<int>, cands: set<int>, limit: int, bound: int)
    requires Extending(need, extra, cands, limit, bound) && cands != {}
    ensures var w := MaxOf(cands);
      var rest := cands - {w};
      var added := if w / 2 > limit && w - 1 !in rest && w / 2 !in rest then {w / 2} else {};
      && 0 <= w <= bound && AfterPass(cands, limit) == rest + added
      && Extending(need, extra + added, rest + added, limit, w - 1)
  {
    hide MaxOf;
    var w := MaxOf(cands);
    var rest := cands - {w};
    var added := if w / 2 > limit && w - 1 !in rest && w / 2 !in rest then {w / 2} else {};
    assert need + extra <= need + (extra + added);
  }

  // Second loop: extra exponents, from the largest candidate down.
  method Extend(need: set<int>, limit: int, ghost top: int) returns (extra: set<int>, ghost passes: nat)
    requires forall e :: e in need ==> 0 <= e <= top
    requires limit >= 0 || need == {}
    ensures extra !! need && (limit >= 0 || extra == {})
    ensures forall e :: e in need + extra ==> e >= 0 && Reachable(e, need + extra, limit)
    ensures HalvingClosed(need, limit) ==> extra == {}
    ensures EndsWithin(need, limit, passes)
  {
    var cands := need;
    extra := {};
    ghost var bound := top;
    passes := 0;
    hide MaxOf, AfterPass, HalvingClosed, Reachable;
    while cands != {}
      invariant Extending(need, extra, cands, limit, bound)
      invariant cands == After(need, limit, passes)
      decreases bound
    {
      ExtendStep(need, extra, cands, limit, bound);
      var w := Max(cands);
      assert w == MaxOf(cands);
      cands := cands - {w};
      bound := w - 1;
      var lo := w / 2;
      if lo > limit && w - 1 !in cands && lo !in cands {
        extra := extra + {lo};
        cands := cands + {lo};
      } else {
        assert cands + {} == cands && extra + {} == extra;
      }
      passes := passes + 1;
    }
  }

  method Min(s: set<int>) returns (m: int)
    requires s != {}
    ensures m in s && forall x :: x in s ==> m <= x
  {
    SomeMember(s);
    m :| m in s;
    var rest := s - {m};
    while rest != {}
      invariant m in s && rest <= s
      invariant forall x :: x in s ==> x in rest || m <= x
      decreases rest
    {
      SomeMember(rest);
      var x :| x in rest;
      rest := rest - {x};
      if x < m {
        m := x;
      }
    }
  }

  ghost predicate PowersOf(d: map<int, int>, base: int) {
    forall n: int :: n in d ==> n >= 0 && d[n] == Pow(base, n)
  }

  // The power of one exponent, from the smaller ones already in d.
  method Next(d: map<int, int>, n: int, base: int) returns (result: int, usedPow: bool)
    requires n >= 0 && PowersOf(d, base)
    ensures result == Pow(base, n)
    ensures usedPow <==> n - 1 !in d && n / 2 !in d
  {
    var lo := n / 2;
    var hi := n - lo;
    usedPow := false;
    var prev := n - 1;
    if prev in d {
      result := d[prev] * base;
      assert prev >= 0 && d[prev] == Pow(base, prev);
    } else if lo in d {
      result := d[lo] * d[lo];
      PowAdd(base, lo, lo);
      if hi != lo {
        assert 2 * lo + 1 == n;
        result := result * base;
        assert Pow(base, n) == base * Pow(base, lo + lo);
      }
    } else {
      result := Pow(base, n);
      usedPow := true;
    }
  }

  // The third loop has computed the exponents in d and has those in todo left.
  ghost predicate Computing(d: map<int, int>, todo: set<int>, all: set<int>, base: int, rare: set<int>, limit: int) {
    && d.Keys + todo == all && d.Keys !! todo && (limit >= 0 || all == {})
    && (forall a, b :: a in d && b in todo ==> a < b)
    && PowersOf(d, base)
    && (forall n :: n in all ==> n >= 0 && Reachable(n, all, limit))
    && (forall n :: n in rare ==> n / 2 <= limit)
  }

  lemma ComputingStep(d: map<int, int>, todo: set<int>, all: set<int>, base: int, rare: set<int>, limit: int,
                      n: int, result: int, usedPow: bool)
    requires Computing(d, todo, all, base, rare, limit)
    requires n in todo && forall x :: x in todo ==> n <= x
    requires n >= 0 ==> result == Pow(base, n)
    requires usedPow <==> n - 1 !in d && n / 2 !in d
    ensures n >= 0
    ensures Computing(d[n := result], todo - {n}, all, base, if usedPow then rare + {n} else rare, limit)
  {
    hide Pow;
    assert Reachable(n, all, limit);
    assert d[n := result].Keys == d.Keys + {n};
    assert n - 1 in all ==> n - 1 in d;
    assert n / 2 in all && n > 0 ==> n / 2 in d;
  }

  lemma NothingToPlan(w: int, limit: int, needHi: bool)
    requires w <= limit
    ensures Consumer(w, limit, needHi) == {}
  {
  }

  // The full routine, for all the inputs on which it ends (see EndsExactlyWhen).  The
  // general power function is used (for the exponents in rare) only where half the
  // exponent is within the limit.
  method ComputePowers(w: int, base: int, limit: int, needHi: bool)
    returns (d: map<int, int>, ghost rare: set<int>)
    requires limit >= 0 || w <= limit
    ensures d.Keys == Consumer(w, limit, needHi)
    ensures PowersOf(d, base)
    ensures forall n :: n in rare ==> n / 2 <= limit
  {
    var need := Plan(w, limit, needHi);
    ConsumerRange(w, limit, needHi);
    if w <= limit {
      NothingToPlan(w, limit, needHi);
    }
    assert forall e :: e in need ==> 0 <= e <= w;
    hide *;
    var extra, _ := Extend(need, limit, w);
    assert needHi || extra == {};
    d, rare := map[], {};
    var todo := need + extra;
    ComputingStart(todo, base, limit);
    while todo != {}
      invariant Computing(d, todo, need + extra, base, rare, limit)
      decreases todo
    {
      var n := Min(todo);
      ComputingFacts(d, todo, need + extra, base, rare, limit);
      var result, usedPow := Next(d, n, base);
      ComputingStep(d, todo, need + extra, base, rare, limit, n, result, usedPow);
      todo := todo - {n};
      d := d[n := result];
      rare := if usedPow then rare + {n} else rare;
    }
    ComputingFacts(d, todo, need + extra, base, rare, limit);
    assert need <= d.Keys;
    if d.Keys - need != {} {
      assert needHi;
      d := Restrict(d, need, base);
    }
    assert d.Keys == need;
  }

  // for n in excess: del d[n]
  function Restrict(d: map<int, int>, need: set<int>, base: int): (r: map<int, int>)
    requires need <= d.Keys && PowersOf(d, base)
    ensures r.Keys == need && PowersOf(r, base)
  {
    map n | n in d && n in need :: d[n]
  }

  lemma ComputingStart(todo: set<int>, base: int, limit: int)
    requires limit >= 0 || todo == {}
    requires forall n :: n in todo ==> n >= 0 && Reachable(n, todo, limit)
    ensures Computing(map[], todo, todo, base, {}, limit)
  {
    var empty: map<int, int> := map[];
    assert empty.Keys + todo == todo;
  }

  lemma ComputingFacts(d: map<int, int>, todo: set<int>, all: set<int>, base: int, rare: set<int>, limit: int)
    requires Computing(d, todo, all, base, rare, limit)
    ensures PowersOf(d, base) && d.Keys + todo == all
    ensures forall n :: n in todo ==> n >= 0
    ensures forall n :: n in rare ==> n / 2 <= limit
  {
  }

}
