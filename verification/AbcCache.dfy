// Virtual subclassing with caches (_py_abc.py): registration, the recursive
// subclass check with its positive and negative caches, and the global counter
// that invalidates the negative ones.  Subclass hooks return NotImplemented.
module AbcCache {

  type Id = nat

  // A class as the check sees it: whether its metaclass is ABCMeta, its method
  // resolution order as a set, its direct subclasses, and its registry.
  datatype Node = Node(abc: bool, mro: set<Id>, subclasses: set<Id>, registry: set<Id>)

  type Graph = map<Id, Node>

  // ----- the specification: plain reachability -----

  // The classes a check on c recurs into.  Only classes of ABCMeta recur; other
  // classes answer from the method resolution order alone.
  function Children(g: Graph, c: Id): set<Id>
    requires c in g
  {
    if g[c].abc then g[c].registry + g[c].subclasses else {}
  }

  // A walk along registry and direct-subclass edges from c to an ancestor of s.
  ghost predicate IsWalk(g: Graph, path: seq<Id>, s: Id, c: Id)
    requires s in g
  {
    && |path| > 0 && path[0] == c && path[|path| - 1] in g[s].mro
    && (forall i :: 0 <= i < |path| ==> path[i] in g)
    && (forall i :: 0 <= i < |path| - 1 ==> path[i + 1] in Children(g, path[i]))
  }

  ghost predicate Sub(g: Graph, s: Id, c: Id)
    requires s in g
  {
    exists path :: IsWalk(g, path, s, c)
  }

  ghost predicate WellFormed(g: Graph) {
    forall c :: c in g ==> c in g[c].mro && g[c].mro <= g.Keys && g[c].subclasses <= g.Keys && g[c].registry <= g.Keys
  }

  // One step of the check is sound and complete for reachability.
  lemma SubStep(g: Graph, s: Id, c: Id)
    requires WellFormed(g) && s in g && c in g
    ensures Sub(g, s, c) <==> c in g[s].mro || exists d :: d in Children(g, c) && Sub(g, s, d)
  {
    if Sub(g, s, c) && c !in g[s].mro {
      var path :| IsWalk(g, path, s, c);
      assert IsWalk(g, path[1..], s, path[1]);
    }
    if c in g[s].mro {
      assert IsWalk(g, [c], s, c);
    }
    forall d | d in Children(g, c) && Sub(g, s, d) ensures Sub(g, s, c) {
      var path :| IsWalk(g, path, s, d);
      assert IsWalk(g, [c] + path, s, c);
    }
  }

  // A class that is not of ABCMeta answers from the method resolution order.
  lemma PlainSub(g: Graph, s: Id, c: Id)
    requires WellFormed(g) && s in g && c in g && !g[c].abc
    ensures Sub(g, s, c) <==> c in g[s].mro
  {
    SubStep(g, s, c);
  }

  // ----- acyclicity -----

  // A rank that decreases along every edge shows that there is no cycle.
  ghost predicate Ranked(g: Graph, rank: map<Id, nat>) {
    rank.Keys == g.Keys &&
    forall c, d :: c in g && d in Children(g, c) ==> d in g && rank[d] < rank[c]
  }

  lemma {:induction false} RankedWalk(g: Graph, rank: map<Id, nat>, path: seq<Id>)
    requires Ranked(g, rank) && |path| > 1
    requires forall i :: 0 <= i < |path| ==> path[i] in g
    requires forall i :: 0 <= i < |path| - 1 ==> path[i + 1] in Children(g, path[i])
    ensures rank[path[|path| - 1]] < rank[path[0]]
    decreases |path|
  {
    if |path| > 2 {
      RankedWalk(g, rank, path[1..]);
    }
  }

  // No walk of at least one edge comes back to where it started.
  lemma NoCycles(g: Graph, rank: map<Id, nat>, path: seq<Id>)
    requires Ranked(g, rank) && |path| > 1
    requires forall i :: 0 <= i < |path| ==> path[i] in g
    requires forall i :: 0 <= i < |path| - 1 ==> path[i + 1] in Children(g, path[i])
    ensures path[0] != path[|path| - 1]
  {
    RankedWalk(g, rank, path);
  }

  // ----- how the graph grows -----

  // register: a new edge from cls to subclass
  function WithRegistered(g: Graph, cls: Id, subclass: Id): Graph
    requires cls in g
  {
    g[cls := g[cls].(registry := g[cls].registry + {subclass})]
  }

  // Class creation: the new class is listed among the subclasses of its bases,
  // inherits from all their ancestors, and is of ABCMeta when asked or when a
  // base is.
  function WithClass(g: Graph, id: Id, bases: set<Id>, abc: bool): Graph
    requires bases <= g.Keys && id !in g
  {
    var linked := map c | c in g :: if c in bases then g[c].(subclasses := g[c].subclasses + {id}) else g[c];
    linked[id := Node(abc || exists b :: b in bases && g[b].abc, {id} + Ancestors(g, bases), {}, {})]
  }

  function Ancestors(g: Graph, bases: set<Id>): set<Id>
    requires bases <= g.Keys
  {
    set b, a | b in bases && a in g[b].mro :: a
  }

  // Registration only adds answers.
  lemma RegisterMonotonic(g: Graph, cls: Id, subclass: Id, s: Id, c: Id)
    requires WellFormed(g) && cls in g && subclass in g && s in g && Sub(g, s, c)
    ensures Sub(WithRegistered(g, cls, subclass), s, c)
  {
    var g' := WithRegistered(g, cls, subclass);
    var path :| IsWalk(g, path, s, c);
    forall i | 0 <= i < |path| - 1 ensures path[i + 1] in Children(g', path[i]) {
      assert path[i + 1] in Children(g, path[i]);
    }
    assert IsWalk(g', path, s, c);
  }

  // Registration takes effect: an earlier "no" about the two classes is now wrong,
  // which is why register must invalidate the negative caches.
  lemma RegisterTakesEffect(g: Graph, cls: Id, subclass: Id)
    requires WellFormed(g) && cls in g && g[cls].abc && subclass in g
    ensures Sub(WithRegistered(g, cls, subclass), subclass, cls)
  {
    var g' := WithRegistered(g, cls, subclass);
    RegisterWellFormed(g, cls, subclass);
    SubStep(g', subclass, subclass);
    SubStep(g', subclass, cls);
    assert subclass in Children(g', cls);
  }

  // A new class has no children, so it changes no answer about the old ones: this
  // is why creating a class need not invalidate any cache.
  lemma NewClassNeutral(g: Graph, id: Id, bases: set<Id>, abc: bool, s: Id, c: Id)
    requires WellFormed(g) && bases <= g.Keys && id !in g && s in g && c in g
    ensures Sub(g, s, c) <==> Sub(WithClass(g, id, bases, abc), s, c)
  {
    var g' := WithClass(g, id, bases, abc);
    if Sub(g, s, c) {
      var path :| IsWalk(g, path, s, c);
      forall i | 0 <= i < |path| - 1 ensures path[i + 1] in Children(g', path[i]) {
        assert path[i + 1] in Children(g, path[i]);
      }
      assert IsWalk(g', path, s, c);
    }
    if Sub(g', s, c) {
      var path :| IsWalk(g', path, s, c);
      assert path[|path| - 1] != id;
      forall i | 0 <= i < |path| ensures path[i] in g && (i < |path| - 1 ==> path[i + 1] in Children(g, path[i])) {
        if i < |path| - 1 {
          assert path[i + 1] in Children(g', path[i]);
          assert path[i] != id;
          NotTheNewClass(g, id, bases, abc, path, i + 1);
        }
      }
      assert IsWalk(g, path, s, c);
    }
  }

  // A walk cannot pass through a class without children.
  lemma NotTheNewClass(g: Graph, id: Id, bases: set<Id>, abc: bool, path: seq<Id>, i: nat)
    requires bases <= g.Keys && id !in g && i < |path| && path[|path| - 1] != id
    requires var g' := WithClass(g, id, bases, abc);
      && (forall k :: 0 <= k < |path| ==> path[k] in g')
      && (forall k :: 0 <= k < |path| - 1 ==> path[k + 1] in Children(g', path[k]))
    ensures path[i] != id
  {
    var g' := WithClass(g, id, bases, abc);
    if i < |path| - 1 {
      assert path[i + 1] in Children(g', path[i]);
      assert Children(g', id) == {};
    }
  }

  // The ranks after registering: everything that reaches cls moves above subclass.
  ghost function RaisedRank(g: Graph, rank: map<Id, nat>, cls: Id, subclass: Id): map<Id, nat>
    requires Ranked(g, rank) && cls in g && subclass in g
  {
    map c | c in g :: if Sub0(g, c, cls) then rank[c] + rank[subclass] + 1 else rank[c]
  }

  // A walk from c that ends at cls itself.
  ghost predicate Sub0(g: Graph, c: Id, cls: Id) {
    exists path :: ReachWalk(g, path, c, cls)
  }

  ghost predicate ReachWalk(g: Graph, path: seq<Id>, c: Id, cls: Id) {
    && |path| > 0 && path[0] == c && path[|path| - 1] == cls
    && (forall i :: 0 <= i < |path| ==> path[i] in g)
    && (forall i :: 0 <= i < |path| - 1 ==> path[i + 1] in Children(g, path[i]))
  }

  lemma ReachStep(g: Graph, c: Id, d: Id, cls: Id)
    requires c in g && d in Children(g, c) && Sub0(g, d, cls)
    ensures Sub0(g, c, cls)
  {
    var path :| ReachWalk(g, path, d, cls);
    assert ReachWalk(g, [c] + path, c, cls);
  }

  lemma ReachSelf(g: Graph, cls: Id)
    requires cls in g
    ensures Sub0(g, cls, cls)
  {
    assert ReachWalk(g, [cls], cls, cls);
  }

  lemma ReachIsSub(g: Graph, c: Id, cls: Id)
    requires WellFormed(g) && cls in g && Sub0(g, c, cls)
    ensures Sub(g, cls, c)
  {
    var path :| ReachWalk(g, path, c, cls);
    assert IsWalk(g, path, cls, c);
  }

  // The two checks that register makes first keep the graph free of cycles.
  lemma RegisterKeepsRanks(g: Graph, rank: map<Id, nat>, cls: Id, subclass: Id)
    requires WellFormed(g) && Ranked(g, rank) && cls in g && subclass in g
    requires !Sub(g, cls, subclass)
    ensures Ranked(WithRegistered(g, cls, subclass), RaisedRank(g, rank, cls, subclass))
  {
    hide Sub, Sub0, WellFormed;
    var g', rank' := WithRegistered(g, cls, subclass), RaisedRank(g, rank, cls, subclass);
    forall c, d | c in g' && d in Children(g', c) ensures d in g' && rank'[d] < rank'[c] {
      if d in Children(g, c) {
        if Sub0(g, d, cls) {
          ReachStep(g, c, d, cls);
        }
      } else {
        assert c == cls && d == subclass;
        ReachSelf(g, cls);
        if Sub0(g, subclass, cls) {
          ReachIsSub(g, subclass, cls);
        }
      }
    }
  }

  lemma RegisterWellFormed(g: Graph, cls: Id, subclass: Id)
    requires WellFormed(g) && cls in g && subclass in g
    ensures WellFormed(WithRegistered(g, cls, subclass)) && WithRegistered(g, cls, subclass).Keys == g.Keys
  {
  }

  ghost function NewRank(g: Graph, rank: map<Id, nat>, id: Id): map<Id, nat>
    requires rank.Keys == g.Keys
  {
    (map c | c in g :: rank[c] + 1)[id := 0]
  }

  lemma NewClassKeepsRanks(g: Graph, rank: map<Id, nat>, id: Id, bases: set<Id>, abc: bool)
    requires WellFormed(g) && Ranked(g, rank) && bases <= g.Keys && id !in g
    ensures Ranked(WithClass(g, id, bases, abc), NewRank(g, rank, id))
  {
    hide WithClass, Children, WellFormed;
    var g', rank' := WithClass(g, id, bases, abc), NewRank(g, rank, id);
    NewClassKeys(g, id, bases, abc);
    forall c, d | c in g' && d in Children(g', c) ensures d in g' && rank'[d] < rank'[c] {
      NewChildren(g, id, bases, abc, c);
      assert d != id ==> d in Children(g, c);
    }
  }

  lemma NewClassKeys(g: Graph, id: Id, bases: set<Id>, abc: bool)
    requires bases <= g.Keys && id !in g
    ensures WithClass(g, id, bases, abc).Keys == g.Keys + {id}
  {
  }

  lemma NewClassWellFormed(g: Graph, id: Id, bases: set<Id>, abc: bool)
    requires WellFormed(g) && bases <= g.Keys && id !in g
    ensures WellFormed(WithClass(g, id, bases, abc))
  {
    var g' := WithClass(g, id, bases, abc);
    NewClassKeys(g, id, bases, abc);
    forall c | c in g'
      ensures c in g'[c].mro && g'[c].mro <= g'.Keys && g'[c].subclasses <= g'.Keys && g'[c].registry <= g'.Keys
    {
      if c == id {
        assert Ancestors(g, bases) <= g.Keys;
      }
    }
  }

  lemma NewChildren(g: Graph, id: Id, bases: set<Id>, abc: bool, c: Id)
    requires bases <= g.Keys && id !in g && c in WithClass(g, id, bases, abc)
    ensures c == id ==> Children(WithClass(g, id, bases, abc), c) == {}
    ensures c != id ==> c in g && Children(g, c) <= Children(WithClass(g, id, bases, abc), c) <= Children(g, c) + {id}
  {
  }

  // ----- inheritance -----

  // Every ABCMeta class that b inherits from leads down to b, and makes b one too.
  ghost predicate Inherits(g: Graph) {
    forall b, a :: b in g && a in g[b].mro && a in g && g[a].abc ==> g[b].abc && Sub0(g, a, b)
  }

  // So subclasses of a class are subclasses of all that it inherits from.
  lemma InheritedAnswers(g: Graph, s: Id, b: Id, a: Id)
    requires WellFormed(g) && Inherits(g) && s in g && b in g && a in g[b].mro && g[a].abc
    requires Sub(g, s, b)
    ensures Sub(g, s, a)
  {
    assert Sub0(g, a, b);
    var down :| ReachWalk(g, down, a, b);
    var path :| IsWalk(g, path, s, b);
    var whole := down + path[1..];
    forall i | 0 <= i < |whole| - 1 ensures whole[i + 1] in Children(g, whole[i]) {
      if i >= |down| - 1 {
        assert whole[i] == path[i - |down| + 1] && whole[i + 1] == path[i - |down| + 2];
      }
    }
    assert IsWalk(g, whole, s, a);
  }

  // Registering with a class registers with every ABCMeta class it inherits from.
  lemma RegistrationIsInherited(g: Graph, cls: Id, subclass: Id, a: Id)
    requires WellFormed(g) && Inherits(g) && cls in g && g[cls].abc && subclass in g
    requires a in g[cls].mro && g[a].abc
    ensures Sub(WithRegistered(g, cls, subclass), subclass, a)
  {
    var g' := WithRegistered(g, cls, subclass);
    RegisterWellFormed(g, cls, subclass);
    RegisterKeepsInheritance(g, cls, subclass);
    RegisterTakesEffect(g, cls, subclass);
    InheritedAnswers(g', subclass, cls, a);
  }

  lemma RegisterKeepsInheritance(g: Graph, cls: Id, subclass: Id)
    requires WellFormed(g) && Inherits(g) && cls in g && subclass in g
    ensures Inherits(WithRegistered(g, cls, subclass))
  {
    var g' := WithRegistered(g, cls, subclass);
    forall c | c in g ensures Children(g, c) <= Children(g', c) {
    }
    forall b, a | b in g' && a in g'[b].mro && a in g' && g'[a].abc ensures g'[b].abc && Sub0(g', a, b) {
      assert b in g && a in g[b].mro && g[a].abc;
      ReachMonotonic(g, g', a, b);
    }
  }

  lemma ReachMonotonic(g: Graph, g': Graph, c: Id, d: Id)
    requires Sub0(g, c, d) && forall k :: k in g ==> k in g' && Children(g, k) <= Children(g', k)
    ensures Sub0(g', c, d)
  {
    var path :| ReachWalk(g, path, c, d);
    forall i | 0 <= i < |path| - 1 ensures path[i + 1] in Children(g', path[i]) {
      assert path[i + 1] in Children(g, path[i]);
    }
    assert ReachWalk(g', path, c, d);
  }

  lemma ReachEdge(g: Graph, c: Id, p: Id, d: Id)
    requires Sub0(g, c, p) && p in g && d in g && d in Children(g, p)
    ensures Sub0(g, c, d)
  {
    var path :| ReachWalk(g, path, c, p);
    assert ReachWalk(g, path + [d], c, d);
  }

  // The new class is listed below its bases, so what holds of them is inherited.
  lemma NewClassKeepsInheritance(g: Graph, id: Id, bases: set<Id>, abc: bool)
    requires WellFormed(g) && Inherits(g) && bases <= g.Keys && id !in g
    ensures Inherits(WithClass(g, id, bases, abc))
  {
    var g' := WithClass(g, id, bases, abc);
    forall b, a | b in g' && a in g'[b].mro && a in g' && g'[a].abc ensures g'[b].abc && Sub0(g', a, b) {
      NewNode(g, id, bases, abc, b);
      NewNode(g, id, bases, abc, a);
      if b != id {
        assert a in g[b].mro && g[a].abc;
        NewClassReach(g, id, bases, abc, a, b);
      } else if a == id {
        ReachSelf(g', id);
      } else {
        ReachesNewClass(g, id, bases, abc, a);
      }
    }
  }

  lemma NewNode(g: Graph, id: Id, bases: set<Id>, abc: bool, c: Id)
    requires WellFormed(g) && bases <= g.Keys && id !in g && c in WithClass(g, id, bases, abc)
    ensures var g' := WithClass(g, id, bases, abc);
      && (c != id ==> c in g && g'[c].mro == g[c].mro && g'[c].abc == g[c].abc && g[c].mro <= g.Keys)
      && (c == id ==> g'[c].mro == {id} + Ancestors(g, bases))
  {
  }

  lemma NewClassReach(g: Graph, id: Id, bases: set<Id>, abc: bool, a: Id, b: Id)
    requires bases <= g.Keys && id !in g && Sub0(g, a, b)
    ensures Sub0(WithClass(g, id, bases, abc), a, b)
  {
    hide WithClass, Children, Sub0;
    var g' := WithClass(g, id, bases, abc);
    NewClassKeys(g, id, bases, abc);
    forall k | k in g ensures k in g' && Children(g, k) <= Children(g', k) {
      NewChildren(g, id, bases, abc, k);
    }
    ReachMonotonic(g, g', a, b);
  }

  // What a base inherits from leads down to the base, and on to the new class.
  lemma ReachesNewClass(g: Graph, id: Id, bases: set<Id>, abc: bool, a: Id)
    requires WellFormed(g) && Inherits(g) && bases <= g.Keys && id !in g
    requires a in Ancestors(g, bases) && a in g && g[a].abc
    ensures var g' := WithClass(g, id, bases, abc);
      id in g' && g'[id].abc && Sub0(g', a, id)
  {
    var g' := WithClass(g, id, bases, abc);
    var base :| base in bases && a in g[base].mro;
    assert g[base].abc && Sub0(g, a, base);
    assert base in g' && id in g' && g'[id].abc && id in Children(g', base);
    hide WithClass, Children, Sub0;
    NewClassReach(g, id, bases, abc, a, base);
    ReachEdge(g', a, base, id);
  }

  // A new class is a subclass of itself and of what its bases are subclasses of, no
  // older class is a subclass of it, and it is of ABCMeta when asked or through a base.
  lemma NewClassAnswers(g: Graph, id: Id, bases: set<Id>, abc: bool, c: Id)
    requires WellFormed(g) && bases <= g.Keys && id !in g && (c in g || c == id)
    ensures var g' := WithClass(g, id, bases, abc);
      && id in g' && (g'[id].abc <==> abc || exists b :: b in bases && g[b].abc)
      && (Sub(g', id, c) <==> c == id || exists b :: b in bases && Sub(g, b, c))
      && (c in g ==> !Sub(g', c, id))
  {
    var g' := WithClass(g, id, bases, abc);
    NewClassKeys(g, id, bases, abc);
    NewClassWellFormed(g, id, bases, abc);
    SubStep(g', id, id);
    if c in g {
      SubStep(g', c, id);
      assert Children(g', id) == {};
      forall b | b in bases && Sub(g, b, c) ensures Sub(g', id, c) {
        NewClassNeutral(g, id, bases, abc, b, c);
        var path :| IsWalk(g', path, b, c);
        assert g'[b].mro == g[b].mro && path[|path| - 1] in g[b].mro;
        assert IsWalk(g', path, id, c);
      }
      if Sub(g', id, c) {
        var path :| IsWalk(g', path, id, c);
        OfABase(g, id, bases, abc, c, path);
      }
    }
  }

  // A walk to an ancestor of the new class comes to an ancestor of one of its bases.
  lemma OfABase(g: Graph, id: Id, bases: set<Id>, abc: bool, c: Id, path: seq<Id>)
    requires WellFormed(g) && bases <= g.Keys && id !in g && c in g
    requires id in WithClass(g, id, bases, abc) && IsWalk(WithClass(g, id, bases, abc), path, id, c)
    ensures exists b :: b in bases && Sub(g, b, c)
  {
    var g' := WithClass(g, id, bases, abc);
    var n := |path|;
    var last := path[n - 1];
    var b: Id;
    var walk := path;
    if last == id {
      b := path[n - 2];
      assert id in Children(g', b);
      assert b != id;
      walk := path[..n - 1];
    } else {
      assert last in Ancestors(g, bases);
      b :| b in bases && last in g[b].mro;
    }
    assert g'[b].mro == g[b].mro;
    assert IsWalk(g', walk, b, c);
    NewClassNeutral(g, id, bases, abc, b, c);
  }

  // Registration adds exactly the answers that follow from the new edge.
  lemma RegisterAnswers(g: Graph, rank: map<Id, nat>, cls: Id, subclass: Id, s: Id, c: Id)
    requires WellFormed(g) && Ranked(g, rank) && cls in g && g[cls].abc && subclass in g && s in g && c in g
    requires !Sub(g, cls, subclass)
    ensures Sub(WithRegistered(g, cls, subclass), s, c)
      <==> Sub(g, s, c) || (Sub0(g, c, cls) && Sub(g, s, subclass))
  {
    var g' := WithRegistered(g, cls, subclass);
    if Sub(g, s, c) {
      RegisterMonotonic(g, cls, subclass, s, c);
    }
    if Sub0(g, c, cls) && Sub(g, s, subclass) {
      ThroughEdge(g, cls, subclass, s, c);
    }
    if Sub(g', s, c) {
      var path :| IsWalk(g', path, s, c);
      WithoutEdge(g, cls, subclass, s, c, path);
    }
  }

  lemma ThroughEdge(g: Graph, cls: Id, subclass: Id, s: Id, c: Id)
    requires WellFormed(g) && cls in g && g[cls].abc && subclass in g && s in g
    requires Sub0(g, c, cls) && Sub(g, s, subclass)
    ensures Sub(WithRegistered(g, cls, subclass), s, c)
  {
    var g' := WithRegistered(g, cls, subclass);
    forall k | k in g ensures Children(g, k) <= Children(g', k) {
    }
    ReachMonotonic(g, g', c, cls);
    RegisterMonotonic(g, cls, subclass, s, subclass);
    var up :| ReachWalk(g', up, c, cls);
    var path :| IsWalk(g', path, s, subclass);
    assert subclass in Children(g', cls);
    assert IsWalk(g', up + path, s, c);
  }

  // A walk that uses the new edge last at some place goes on without it.
  lemma {:induction false} WithoutEdge(g: Graph, cls: Id, subclass: Id, s: Id, c: Id, path: seq<Id>)
    requires WellFormed(g) && cls in g && subclass in g && s in g && c in g
    requires IsWalk(WithRegistered(g, cls, subclass), path, s, c)
    ensures Sub(g, s, c) || (Sub0(g, c, cls) && Sub(g, s, subclass))
    decreases |path|
  {
    var g' := WithRegistered(g, cls, subclass);
    if |path| == 1 {
      assert IsWalk(g, path, s, c);
    } else {
      var d := path[1];
      assert d in Children(g', c);
      assert IsWalk(g', path[1..], s, d);
      WithoutEdge(g, cls, subclass, s, d, path[1..]);
      if d in Children(g, c) {
        if Sub(g, s, d) {
          SubStep(g, s, c);
        } else {
          ReachStep(g, c, d, cls);
        }
      } else {
        assert c == cls && d == subclass;
        ReachSelf(g, cls);
      }
    }
  }

  // ----- the caches -----

  datatype Caches = Caches(positive: set<Id>, negative: set<Id>, version: nat)

  // Positive entries are always right; negative entries are right as long as they
  // carry the current counter.
  ghost predicate CachesSound(g: Graph, caches: map<Id, Caches>, counter: nat) {
    && caches.Keys == g.Keys
    && (forall c, s :: c in g && s in caches[c].positive ==> s in g && Sub(g, s, c))
    && (forall c :: c in g ==> caches[c].version <= counter)
    && (forall c, s :: c in g && caches[c].version == counter && s in caches[c].negative ==> s in g && !Sub(g, s, c))
  }

  lemma CacheFacts(g: Graph, caches: map<Id, Caches>, counter: nat, c: Id)
    requires CachesSound(g, caches, counter) && c in g
    ensures caches.Keys == g.Keys && caches[c].version <= counter
    ensures forall s :: s in caches[c].positive ==> s in g && Sub(g, s, c)
    ensures forall s :: caches[c].version == counter && s in caches[c].negative ==> s in g && !Sub(g, s, c)
  {
  }

  // The entry of one class replaced by a sound one.
  lemma CacheUpdate(g: Graph, caches: map<Id, Caches>, counter: nat, c: Id, entry: Caches)
    requires CachesSound(g, caches, counter) && c in g
    requires forall s :: s in entry.positive ==> s in g && Sub(g, s, c)
    requires entry.version <= counter
    requires forall s :: entry.version == counter && s in entry.negative ==> s in g && !Sub(g, s, c)
    ensures CachesSound(g, caches[c := entry], counter)
  {
  }

  lemma RegisterKeepsCaches(g: Graph, caches: map<Id, Caches>, counter: nat, cls: Id, subclass: Id)
    requires WellFormed(g) && CachesSound(g, caches, counter) && cls in g && subclass in g
    ensures CachesSound(WithRegistered(g, cls, subclass), caches, counter + 1)
  {
    var g' := WithRegistered(g, cls, subclass);
    forall c, s | c in g' && s in caches[c].positive ensures s in g' && Sub(g', s, c) {
      RegisterMonotonic(g, cls, subclass, s, c);
    }
  }

  lemma NewClassKeepsCaches(g: Graph, caches: map<Id, Caches>, counter: nat, id: Id, bases: set<Id>, abc: bool)
    requires WellFormed(g) && CachesSound(g, caches, counter) && bases <= g.Keys && id !in g
    ensures CachesSound(WithClass(g, id, bases, abc), caches[id := Caches({}, {}, counter)], counter)
  {
    var g' := WithClass(g, id, bases, abc);
    forall c, s | c in g && s in g ensures Sub(g, s, c) <==> Sub(g', s, c) {
      NewClassNeutral(g, id, bases, abc, s, c);
    }
  }

  // _abc_registry_clear, a debugging helper
  function WithRegistryCleared(g: Graph, cls: Id): Graph
    requires cls in g
  {
    g[cls := g[cls].(registry := {})]
  }

  // Clearing a registry takes answers away and touches no cache: with two classes, one
  // registered with the other and remembered as its subclass, the entry is stale after.
  lemma ClearedRegistryIsStale(cls: Id, subclass: Id, counter: nat)
    requires cls != subclass
    ensures var g := map[cls := Node(true, {cls}, {}, {subclass}), subclass := Node(false, {subclass}, {}, {})];
      var caches := map[cls := Caches({subclass}, {}, counter), subclass := Caches({}, {}, counter)];
      && WellFormed(g) && CachesSound(g, caches, counter)
      && !Sub(WithRegistryCleared(g, cls), subclass, cls)
      && !CachesSound(WithRegistryCleared(g, cls), caches, counter)
  {
    var g := map[cls := Node(true, {cls}, {}, {subclass}), subclass := Node(false, {subclass}, {}, {})];
    var caches := map[cls := Caches({subclass}, {}, counter), subclass := Caches({}, {}, counter)];
    assert g.Keys == {cls, subclass} && WellFormed(g);
    SubStep(g, subclass, subclass);
    SubStep(g, subclass, cls);
    assert subclass in Children(g, cls);
    var cleared := WithRegistryCleared(g, cls);
    assert cleared.Keys == {cls, subclass} && WellFormed(cleared);
    SubStep(cleared, subclass, cls);
    assert cleared[cls] == Node(true, {cls}, {}, {});
    assert subclass in caches[cls].positive;
  }

  // Positive entries stay, negative ones as long as their version does.
  predicate Kept(before: Caches, after: Caches, counter: nat) {
    before.positive <= after.positive &&
    if after.version == before.version then before.negative <= after.negative else after.version == counter
  }

  // ----- the runtime -----

  datatype RegisterResult = Registered | NotAClass | InheritanceCycle

  class AbcRuntime {
    var graph: Graph
    var caches: map<Id, Caches>
    var counter: nat
    var nextId: Id
    ghost var rank: map<Id, nat>

    ghost predicate Valid()
      reads this
    {
      && WellFormed(graph) && Ranked(graph, rank) && Inherits(graph) && CachesSound(graph, caches, counter)
      && (forall c :: c in graph ==> c < nextId)
    }

    // What every check leaves unchanged.
    twostate predicate SameClasses()
      reads this
    {
      graph == old(graph) && counter == old(counter) && nextId == old(nextId) && rank == old(rank)
      && caches.Keys == graph.Keys && old(caches).Keys == graph.Keys
      && (forall c :: c in graph ==> Kept(old(caches)[c], caches[c], counter))
    }

    // The answer is in the cache it belongs to, and valid there.
    predicate Remembers(cls: Id, subclass: Id, ok: bool)
      reads this
    {
      cls in caches &&
      if ok then subclass in caches[cls].positive
      else subclass in caches[cls].negative && caches[cls].version == counter
    }

    constructor ()
      ensures Valid() && graph == map[] && counter == 0
    {
      graph, caches, counter, nextId, rank := map[], map[], 0, 0, map[];
    }

    // __new__, for ABCMeta or a plain metaclass
    method NewClass(bases: set<Id>, abc: bool) returns (id: Id)
      requires Valid() && bases <= graph.Keys
      modifies this
      ensures Valid() && id == old(nextId) && id !in old(graph)
      ensures graph == WithClass(old(graph), id, bases, abc) && caches == old(caches)[id := Caches({}, {}, counter)]
      ensures counter == old(counter) && nextId == old(nextId) + 1
    {
      hide Sub, Inherits, WellFormed, CachesSound, WithClass, Children, NewRank;
      id := nextId;
      NewClassKeepsCaches(graph, caches, counter, id, bases, abc);
      NewClassKeepsRanks(graph, rank, id, bases, abc);
      NewClassWellFormed(graph, id, bases, abc);
      NewClassKeepsInheritance(graph, id, bases, abc);
      NewClassKeys(graph, id, bases, abc);
      rank := NewRank(graph, rank, id);
      graph := WithClass(graph, id, bases, abc);
      caches := caches[id := Caches({}, {}, counter)];
      nextId := nextId + 1;
    }

    // issubclass: dispatches on the metaclass
    method IsSubclass(subclass: Id, cls: Id) returns (ok: bool)
      requires Valid() && subclass in graph && cls in graph
      modifies this
      ensures Valid() && SameClasses()
      ensures ok <==> Sub(graph, subclass, cls)
      decreases rank[cls], 1
    {
      hide Sub, Inherits, WellFormed, CachesSound, Ranked;
      CacheFacts(graph, caches, counter, cls);
      if graph[cls].abc {
        ok := SubclassCheck(cls, subclass);
      } else {
        PlainSub(graph, subclass, cls);
        ok := cls in graph[subclass].mro;
      }
    }

    // __subclasscheck__
    method SubclassCheck(cls: Id, subclass: Id) returns (ok: bool)
      requires Valid() && subclass in graph && cls in graph && graph[cls].abc
      modifies this
      ensures Valid() && SameClasses()
      ensures ok <==> Sub(graph, subclass, cls)
      ensures Remembers(cls, subclass, ok)
      decreases rank[cls], 0
    {
      hide Sub, Inherits, WellFormed, Ranked, CachesSound;
      CacheFacts(graph, caches, counter, cls);
      if subclass in caches[cls].positive {
        return true;
      }
      if caches[cls].version < counter {
        Update(cls, Caches(caches[cls].positive, {}, counter));
      } else if subclass in caches[cls].negative {
        return false;
      }
      ok := Search(cls, subclass);
      if ok {
        Remember(cls, subclass);
      } else {
        RememberNot(cls, subclass);
      }
    }

    // The part of __subclasscheck__ after the caches and the hook.
    method Search(cls: Id, subclass: Id) returns (ok: bool)
      requires Valid() && subclass in graph && cls in graph && graph[cls].abc
      requires cls in caches && caches[cls].version == counter
      modifies this
      ensures Valid() && SameClasses() && caches[cls].version == counter
      ensures ok <==> Sub(graph, subclass, cls)
      decreases rank[cls], 0, 1
    {
      hide Sub, Inherits, WellFormed, Ranked, CachesSound;
      CacheFacts(graph, caches, counter, cls);
      SubStep(graph, subclass, cls);
      if cls in graph[subclass].mro {
        return true;
      }
      ok := SearchAny(cls, subclass, graph[cls].registry);
      if ok {
        return;
      }
      ok := SearchAny(cls, subclass, graph[cls].subclasses);
    }

    // The loops over the registry and over the direct subclasses.
    method SearchAny(cls: Id, subclass: Id, candidates: set<Id>) returns (found: bool)
      requires Valid() && subclass in graph && cls in graph && candidates <= Children(graph, cls)
      requires caches[cls].version == counter
      modifies this
      ensures Valid() && SameClasses() && caches[cls].version == counter
      ensures found <==> exists d :: d in candidates && Sub(graph, subclass, d)
      decreases rank[cls], 0, 0
    {
      hide Sub, Inherits, WellFormed, CachesSound;
      CacheFacts(graph, caches, counter, cls);
      var todo := candidates;
      while todo != {}
        invariant todo <= candidates
        invariant Valid() && SameClasses() && caches[cls].version == counter
        invariant forall d :: d in candidates - todo ==> !Sub(graph, subclass, d)
        decreases todo
      {
        var d :| d in todo;
        todo := todo - {d};
        var ok := IsSubclass(subclass, d);
        if ok {
          return true;
        }
      }
      found := false;
    }

    method Remember(cls: Id, subclass: Id)
      requires Valid() && cls in graph && subclass in graph && Sub(graph, subclass, cls)
      requires caches.Keys == graph.Keys
      modifies this`caches
      ensures Valid()
      ensures caches == old(caches)[cls := old(caches)[cls].(positive := old(caches)[cls].positive + {subclass})]
    {
      hide Sub, Inherits, WellFormed, CachesSound, Ranked;
      CacheFacts(graph, caches, counter, cls);
      CacheUpdate(graph, caches, counter, cls, caches[cls].(positive := caches[cls].positive + {subclass}));
      caches := caches[cls := caches[cls].(positive := caches[cls].positive + {subclass})];
    }

    method RememberNot(cls: Id, subclass: Id)
      requires Valid() && cls in graph && subclass in graph && !Sub(graph, subclass, cls)
      requires caches.Keys == graph.Keys && caches[cls].version == counter
      modifies this`caches
      ensures Valid()
      ensures caches == old(caches)[cls := old(caches)[cls].(negative := old(caches)[cls].negative + {subclass})]
    {
      hide Sub, Inherits, WellFormed, CachesSound, Ranked;
      CacheFacts(graph, caches, counter, cls);
      Update(cls, caches[cls].(negative := caches[cls].negative + {subclass}));
    }

    method Update(cls: Id, entry: Caches)
      requires Valid() && cls in graph
      requires forall s :: s in entry.positive ==> s in graph && Sub(graph, s, cls)
      requires entry.version == counter && forall s :: s in entry.negative ==> s in graph && !Sub(graph, s, cls)
      modifies this`caches
      ensures Valid() && caches == old(caches)[cls := entry]
    {
      hide Sub, Inherits, WellFormed, CachesSound, Ranked;
      CacheUpdate(graph, caches, counter, cls, entry);
      caches := caches[cls := entry];
    }

    method Register(cls: Id, subclass: Id) returns (result: RegisterResult)
      requires Valid() && cls in graph && graph[cls].abc
      modifies this
      ensures Valid() && nextId == old(nextId)
      ensures result ==
        if subclass !in old(graph) then NotAClass
        else if Sub(old(graph), subclass, cls) then Registered
        else if Sub(old(graph), cls, subclass) then InheritanceCycle
        else Registered
      ensures graph ==
        if subclass in old(graph) && !Sub(old(graph), subclass, cls) && !Sub(old(graph), cls, subclass)
        then WithRegistered(old(graph), cls, subclass) else old(graph)
      ensures counter == if graph == old(graph) then old(counter) else old(counter) + 1
      ensures caches.Keys == graph.Keys == old(caches).Keys
      ensures forall c :: c in graph ==> Kept(old(caches)[c], caches[c], old(counter))
    {
      hide Sub, Inherits, WellFormed, Ranked, CachesSound, WithRegistered;
      CacheFacts(graph, caches, counter, cls);
      if subclass !in graph {
        return NotAClass;
      }
      var already := IsSubclass(subclass, cls);
      if already {
        return Registered;
      }
      var cycle := IsSubclass(cls, subclass);
      if cycle {
        return InheritanceCycle;
      }
      AddEdge(cls, subclass);
      result := Registered;
    }

    // The part of register after its checks.
    method AddEdge(cls: Id, subclass: Id)
      requires Valid() && cls in graph && graph[cls].abc && subclass in graph
      requires !Sub(graph, subclass, cls) && !Sub(graph, cls, subclass)
      modifies this`graph, this`counter, this`rank
      ensures Valid() && graph == WithRegistered(old(graph), cls, subclass) && graph != old(graph)
      ensures counter == old(counter) + 1 && graph.Keys == old(graph).Keys
    {
      hide Sub, Inherits, WellFormed, Ranked, CachesSound, RaisedRank;
      RegisterKeepsCaches(graph, caches, counter, cls, subclass);
      RegisterKeepsRanks(graph, rank, cls, subclass);
      RegisterWellFormed(graph, cls, subclass);
      RegisterKeepsInheritance(graph, cls, subclass);
      EdgeIsNew(graph, cls, subclass);
      rank := RaisedRank(graph, rank, cls, subclass);
      graph := WithRegistered(graph, cls, subclass);
      counter := counter + 1;
    }

    // __instancecheck__, given the class and the type of the instance
    method InstanceCheck(cls: Id, subclass: Id, subtype: Id) returns (ok: bool)
      requires Valid() && cls in graph && graph[cls].abc && subclass in graph && subtype in graph
      modifies this
      ensures Valid() && SameClasses()
      ensures ok <==> Sub(graph, subclass, cls) || Sub(graph, subtype, cls)
    {
      hide Sub, Inherits, WellFormed, CachesSound, Ranked;
      CacheFacts(graph, caches, counter, cls);
      if subclass in caches[cls].positive {
        return true;
      }
      if subtype == subclass {
        if caches[cls].version == counter && subclass in caches[cls].negative {
          return false;
        }
        ok := SubclassCheck(cls, subclass);
        return;
      }
      ok := SubclassCheck(cls, subclass);
      if !ok {
        ok := SubclassCheck(cls, subtype);
      }
    }
  }

  // An edge that is refused as redundant would be redundant.
  lemma EdgeIsNew(g: Graph, cls: Id, subclass: Id)
    requires WellFormed(g) && cls in g && subclass in g && g[cls].abc && !Sub(g, subclass, cls)
    ensures WithRegistered(g, cls, subclass) != g
  {
    SubStep(g, subclass, cls);
    SubStep(g, subclass, subclass);
    assert subclass !in Children(g, cls);
    assert WithRegistered(g, cls, subclass)[cls] != g[cls];
  }

  // ----- whole runs -----

  datatype Op =
    | New(bases: set<Id>, abc: bool)
    | Register(cls: Id, subclass: Id)
    | Check(subclass: Id, cls: Id)
    | CheckInstance(cls: Id, subclass: Id, subtype: Id)

  datatype Answer = Created(id: Id) | Result(result: RegisterResult) | Answered(ok: bool) | TypeError

  // One operation on a graph without any cache.
  ghost function SpecStep(g: Graph, nextId: Id, op: Op): (Graph, Id, Answer)
    requires nextId !in g
  {
    match op
    case New(bases, abc) =>
      if bases <= g.Keys then (WithClass(g, nextId, bases, abc), nextId + 1, Created(nextId))
      else (g, nextId, TypeError)
    case Register(cls, subclass) =>
      if cls !in g || !g[cls].abc then (g, nextId, TypeError)
      else if subclass !in g then (g, nextId, Result(NotAClass))
      else if Sub(g, subclass, cls) then (g, nextId, Result(Registered))
      else if Sub(g, cls, subclass) then (g, nextId, Result(InheritanceCycle))
      else (WithRegistered(g, cls, subclass), nextId, Result(Registered))
    case Check(subclass, cls) =>
      if subclass !in g || cls !in g then (g, nextId, TypeError) else (g, nextId, Answered(Sub(g, subclass, cls)))
    case CheckInstance(cls, subclass, subtype) =>
      if subclass !in g || subtype !in g || cls !in g || !g[cls].abc then (g, nextId, TypeError)
      else (g, nextId, Answered(Sub(g, subclass, cls) || Sub(g, subtype, cls)))
  }

  ghost predicate Below(g: Graph, nextId: Id) { forall c :: c in g ==> c < nextId }

  // The answers of a whole run, by reachability alone.
  ghost function SpecRun(g: Graph, nextId: Id, ops: seq<Op>): seq<Answer>
    requires Below(g, nextId)
    decreases |ops|
  {
    if |ops| == 0 then []
    else
      var (g', next', answer) := SpecStep(g, nextId, ops[0]);
      [answer] + SpecRun(g', next', ops[1..])
  }

  method Step(runtime: AbcRuntime, op: Op) returns (answer: Answer)
    requires runtime.Valid()
    modifies runtime
    ensures runtime.Valid()
    ensures (runtime.graph, runtime.nextId, answer) == SpecStep(old(runtime.graph), old(runtime.nextId), op)
  {
    match op
    case New(bases, abc) =>
      if bases <= runtime.graph.Keys {
        var id := runtime.NewClass(bases, abc);
        answer := Created(id);
      } else {
        answer := TypeError;
      }
    case Register(cls, subclass) =>
      if cls !in runtime.graph || !runtime.graph[cls].abc {
        answer := TypeError;
      } else {
        var result := runtime.Register(cls, subclass);
        answer := Result(result);
      }
    case Check(subclass, cls) =>
      if subclass !in runtime.graph || cls !in runtime.graph {
        answer := TypeError;
      } else {
        var ok := runtime.IsSubclass(subclass, cls);
        answer := Answered(ok);
      }
    case CheckInstance(cls, subclass, subtype) =>
      if subclass !in runtime.graph || subtype !in runtime.graph || cls !in runtime.graph || !runtime.graph[cls].abc {
        answer := TypeError;
      } else {
        var ok := runtime.InstanceCheck(cls, subclass, subtype);
        answer := Answered(ok);
      }
  }

  // The caches never show: every run answers as reachability does.
  method Run(runtime: AbcRuntime, ops: seq<Op>) returns (answers: seq<Answer>)
    requires runtime.Valid()
    modifies runtime
    ensures runtime.Valid()
    ensures answers == SpecRun(old(runtime.graph), old(runtime.nextId), ops)
  {
    answers := [];
    ghost var expected := SpecRun(runtime.graph, runtime.nextId, ops);
    var i := 0;
    while i < |ops|
      invariant 0 <= i <= |ops|
      invariant runtime.Valid()
      invariant expected == answers + SpecRun(runtime.graph, runtime.nextId, ops[i..])
    {
      ghost var g, next := runtime.graph, runtime.nextId;
      var answer := Step(runtime, ops[i]);
      assert ops[i..][0] == ops[i] && ops[i..][1..] == ops[i + 1..];
      answers := answers + [answer];
      i := i + 1;
    }
  }
}
