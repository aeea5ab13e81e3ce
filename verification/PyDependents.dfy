/** Which cached values a change can affect: Symbol.dep, filled by _build_dep, and
    Symbol._get_dependent, which closes it under further dependents and choice siblings. */
module PyDependents {
  import opened Tristates
  import opened Exprs
  import opened PyExprs
  import opened PyModels

  /** Who mentions whom, and who shares a choice with whom. */
  datatype Graph = Graph(syms: set<Symbol>, mentioned: Symbol -> set<Symbol>, siblings: Symbol -> set<Symbol>)

  function GraphOf(m: Model): Graph {
    Graph(m.syms, s => Mentioned(m, s), s => Siblings(m, s))
  }

  /** Acyclic once every choice is taken as a whole; a choice is an equivalence class. */
  ghost predicate Acyclic(g: Graph, rank: Symbol -> nat) {
    && (forall s, r {:trigger r in g.mentioned(s)} ::
          s in g.syms && r in g.mentioned(s) ==> r in g.syms && rank(r) < rank(s))
    && (forall s, r {:trigger r in g.siblings(s)} :: s in g.syms && r in g.siblings(s) ==>
          r in g.syms && rank(r) == rank(s) && s in g.siblings(r) && g.siblings(r) <= {s} + g.siblings(s))
    && (forall s: Symbol {:trigger s.IsFixed()} :: s.IsFixed() ==> g.mentioned(s) == {} && g.siblings(s) == {})
  }

  lemma ProperIsAcyclic(m: Model, rank: Symbol -> nat)
    requires Proper(m, rank)
    ensures Acyclic(GraphOf(m), rank)
  {
    forall s, r | s in m.syms && r in Siblings(m, s)
      ensures r in m.syms && rank(r) == rank(s) && s in Siblings(m, r) && Siblings(m, r) <= {s} + Siblings(m, s)
    {
      var c := m.sym(s).choice.value;
      assert r in m.choice(c).members && s in m.choice(c).members;
    }
  }

  /** The symbols that mention r. */
  function Dep(g: Graph, r: Symbol): set<Symbol> {
    set t | t in g.syms && r in g.mentioned(t)
  }

  /** Symbol.dep of every symbol. */
  type DepSets = map<Symbol, set<Symbol>>

  ghost predicate DepsBuilt(g: Graph, dep: DepSets) {
    dep.Keys == g.syms && forall r :: r in g.syms ==> dep[r] == Dep(g, r)
  }

  /** _build_dep: every symbol adds itself to the sets of those it mentions. */
  method BuildDep(g: Graph, order: seq<Symbol>) returns (dep: DepSets)
    requires forall s :: s in g.syms ==> g.mentioned(s) <= g.syms
    requires forall s :: s in order <==> s in g.syms
    ensures DepsBuilt(g, dep)
  {
    dep := map s | s in g.syms :: {};
    for i := 0 to |order|
      invariant dep.Keys == g.syms
      invariant forall r, t {:trigger t in dep[r]} :: r in g.syms ==>
                (t in dep[r] <==> t in order[..i] && r in g.mentioned(t))
    {
      assert order[i] in order;
      dep := AddExprDeps(dep, g.mentioned(order[i]), order[i]);
      assert order[..i + 1] == order[..i] + [order[i]];
    }
    assert order[..|order|] == order;
  }

  /** add_expr_deps for everything s mentions. */
  method AddExprDeps(dep: DepSets, mentioned: set<Symbol>, s: Symbol) returns (r: DepSets)
    requires mentioned <= dep.Keys
    ensures r.Keys == dep.Keys
    ensures forall x, t {:trigger t in r[x]} :: x in dep ==> (t in r[x] <==> t in dep[x] || (t == s && x in mentioned))
  {
    r := dep;
    var todo := mentioned;
    while todo != {}
      invariant todo <= mentioned && r.Keys == dep.Keys
      invariant forall x, t {:trigger t in r[x]} ::
                  x in dep ==> (t in r[x] <==> t in dep[x] || (t == s && x in mentioned - todo))
      decreases todo
    {
      var x :| x in todo;
      r := r[x := r[x] + {s}];
      todo := todo - {x};
    }
  }

  // ---------- the closure ----------

  ghost predicate Bounded(g: Graph, rank: Symbol -> nat, top: nat) {
    forall s :: s in g.syms ==> rank(s) <= top
  }

  /** _get_dependent */
  ghost function Dependents(g: Graph, rank: Symbol -> nat, top: nat, s: Symbol): set<Symbol>
    requires Acyclic(g, rank) && Bounded(g, rank, top) && s in g.syms
    decreases top - rank(s), 1
  {
    g.siblings(s) + Through(g, rank, top, s)
      + set x, r | x in g.siblings(s) && r in Through(g, rank, top, x) :: r
  }

  /** _add_dependent_ignore_siblings */
  ghost function Through(g: Graph, rank: Symbol -> nat, top: nat, x: Symbol): set<Symbol>
    requires Acyclic(g, rank) && Bounded(g, rank, top) && x in g.syms
    decreases top - rank(x), 0
  {
    Dep(g, x) + set t, r | t in Dep(g, x) && r in Dependents(g, rank, top, t) :: r
  }

  /** Nothing outside mentions anything inside, and a choice is inside or outside as a whole. */
  ghost predicate Closed(g: Graph, inside: set<Symbol>) {
    forall r :: r in inside ==> r in g.syms && Dep(g, r) <= inside && g.siblings(r) <= inside
  }

  lemma ThroughIsInside(g: Graph, rank: Symbol -> nat, top: nat, s: Symbol, x: Symbol)
    requires Acyclic(g, rank) && Bounded(g, rank, top) && s in g.syms && (x == s || x in g.siblings(s))
    ensures x in g.syms && Through(g, rank, top, x) <= Dependents(g, rank, top, s)
  {
  }

  lemma DependentsAreInside(g: Graph, rank: Symbol -> nat, top: nat, x: Symbol, t: Symbol)
    requires Acyclic(g, rank) && Bounded(g, rank, top) && x in g.syms && t in Dep(g, x)
    ensures {t} + Dependents(g, rank, top, t) <= Through(g, rank, top, x)
  {
  }

  /** With s itself, the dependents are closed ... */
  lemma {:induction false} DependentsAreClosed(g: Graph, rank: Symbol -> nat, top: nat, s: Symbol)
    requires Acyclic(g, rank) && Bounded(g, rank, top) && s in g.syms
    ensures Closed(g, {s} + Dependents(g, rank, top, s))
    decreases top - rank(s)
  {
    var all := {s} + Dependents(g, rank, top, s);
    forall r | r in all ensures r in g.syms && Dep(g, r) <= all && g.siblings(r) <= all {
      if r == s || r in g.siblings(s) {
        ThroughIsInside(g, rank, top, s, r);
      } else {
        var x :| x in {s} + g.siblings(s) && r in Through(g, rank, top, x);
        ThroughIsInside(g, rank, top, s, x);
        var t :| t in Dep(g, x) && r in {t} + Dependents(g, rank, top, t);
        DependentsAreInside(g, rank, top, x, t);
        DependentsAreClosed(g, rank, top, t);
      }
    }
  }

  /** ... and they belong to every closed set s belongs to: they are exactly the closure. */
  lemma {:induction false} DependentsAreLeast(g: Graph, rank: Symbol -> nat, top: nat, s: Symbol, inside: set<Symbol>)
    requires Acyclic(g, rank) && Bounded(g, rank, top) && s in g.syms
    requires Closed(g, inside) && s in inside
    ensures Dependents(g, rank, top, s) <= inside
    decreases top - rank(s)
  {
    forall x | x in {s} + g.siblings(s) ensures Through(g, rank, top, x) <= inside {
      forall t | t in Dep(g, x) ensures t in inside && Dependents(g, rank, top, t) <= inside {
        DependentsAreLeast(g, rank, top, t, inside);
      }
    }
  }

  /** Neither s nor one of the constants is among the dependents of s. */
  lemma {:induction false} DependentsRankHigher(g: Graph, rank: Symbol -> nat, top: nat, s: Symbol, r: Symbol)
    requires Acyclic(g, rank) && Bounded(g, rank, top) && s in g.syms && r in Dependents(g, rank, top, s)
    ensures r in g.syms && !r.IsFixed() && (rank(s) < rank(r) || r in g.siblings(s))
    decreases top - rank(s)
  {
    if r !in g.siblings(s) {
      var x :| x in {s} + g.siblings(s) && r in Through(g, rank, top, x);
      var t :| t in Dep(g, x) && r in {t} + Dependents(g, rank, top, t);
      assert x in g.mentioned(t);
      if r != t {
        DependentsRankHigher(g, rank, top, t, r);
      }
    }
  }

  // ---------- what the loops of _get_dependent accumulate ----------

  /** These symbols and what f gives for each of them. */
  ghost function Spread(f: Symbol -> set<Symbol>, ts: set<Symbol>): set<Symbol> {
    ts + set t, r | t in ts && r in f(t) :: r
  }

  lemma SpreadGrows(f: Symbol -> set<Symbol>, ts: set<Symbol>, t: Symbol)
    ensures Spread(f, ts + {t}) == Spread(f, ts) + {t} + f(t)
  {
    forall r | r in Spread(f, ts) ensures r in Spread(f, ts + {t}) {
      if r !in ts {
        var u :| u in ts && r in f(u);
        assert u in ts + {t};
      }
    }
  }

  ghost function DependentsOf(g: Graph, rank: Symbol -> nat, top: nat): Symbol -> set<Symbol>
    requires Acyclic(g, rank) && Bounded(g, rank, top)
  {
    s => if s in g.syms then Dependents(g, rank, top, s) else {}
  }

  ghost function ThroughOf(g: Graph, rank: Symbol -> nat, top: nat): Symbol -> set<Symbol>
    requires Acyclic(g, rank) && Bounded(g, rank, top)
  {
    s => if s in g.syms then Through(g, rank, top, s) else {}
  }

  lemma DependentsAreSpread(g: Graph, rank: Symbol -> nat, top: nat, s: Symbol)
    requires Acyclic(g, rank) && Bounded(g, rank, top) && s in g.syms
    ensures var (closure, through) := (DependentsOf(g, rank, top), ThroughOf(g, rank, top));
            closure(s) == through(s) + Spread(through, g.siblings(s)) && through(s) == Spread(closure, Dep(g, s))
  {
    var through, closure := ThroughOf(g, rank, top), DependentsOf(g, rank, top);
    assert forall x :: x in g.siblings(s) ==> through(x) == Through(g, rank, top, x);
    assert forall t :: t in Dep(g, s) ==> closure(t) == Dependents(g, rank, top, t);
    forall r ensures r in Spread(through, g.siblings(s)) <==>
                       r in g.siblings(s) || exists x :: x in g.siblings(s) && r in Through(g, rank, top, x) {
    }
    assert closure(s) == Dependents(g, rank, top, s);
  }

  // ---------- changes are local ----------

  /** Only what the user said about s and its choice differs. */
  ghost predicate ChangedAt(m: Model, u: Users, u': Users, s: Symbol) {
    && (forall t :: t != s ==> Find(u.val, t) == Find(u'.val, t))
    && (forall c: nat :: m.sym(s).choice != Some(c) ==>
          Find(u.selection, c) == Find(u'.selection, c) && Find(u.mode, c) == Find(u'.mode, c))
  }

  lemma InputsStayOutside(m: Model, rank: Symbol -> nat, inside: set<Symbol>, t: Symbol, r: Symbol)
    requires Proper(m, rank) && Closed(GraphOf(m), inside) && t in m.syms && t !in inside && r in Inputs(m, t)
    ensures r !in inside
  {
    var g := GraphOf(m);
    if r in Mentioned(m, t) {
      assert r in inside ==> t in Dep(g, r);
    } else {
      var x :| x in Siblings(m, t) && r in Mentioned(m, x);
      ProperIsAcyclic(m, rank);
      assert x in g.siblings(t) && t in g.siblings(x);
      assert r in inside ==> x in Dep(g, r);
    }
  }

  /** A change at s leaves every value outside its closure alone, with everything the value or the
      visibility is computed from. */
  lemma {:induction false} ChangeIsLocal(m: Model, rank: Symbol -> nat, u: Users, u': Users, val: PyValues,
                                       val': PyValues,
                                         s: Symbol, inside: set<Symbol>, t: Symbol)
    requires Proper(m, rank) && ProperUsers(m, u) && Means(m, u, val) && Means(m, u', val')
    requires ChangedAt(m, u, u', s) && Closed(GraphOf(m), inside) && s in inside
    requires t in m.syms && t !in inside
    ensures val(t) == val'(t) && PyAgreeOn(val, val', Inputs(m, t)) && SameUsers(m, u, u', t)
    decreases rank(t)
  {
    forall r | r in Inputs(m, t) ensures val(r) == val'(r) {
      InputsStayOutside(m, rank, inside, t, r);
      InputsRankLower(m, rank, t, r);
      ChangeIsLocal(m, rank, u, u', val, val', s, inside, r);
    }
    ChoiceUnchanged(m, rank, inside, s, t);
    FreshAgrees(m, rank, u, u', val, val', t);
  }

  lemma ChoiceUnchanged(m: Model, rank: Symbol -> nat, inside: set<Symbol>, s: Symbol, t: Symbol)
    requires Proper(m, rank) && Closed(GraphOf(m), inside) && s in inside && t in m.syms && t !in inside
    ensures m.sym(t).choice.Some? ==> m.sym(t).choice != m.sym(s).choice
  {
    assert t in GraphOf(m).siblings(s) ==> t in inside;
  }

  lemma VisibilityUnchanged(m: Model, rank: Symbol -> nat, u: Users, u': Users, val: PyValues, val': PyValues,
                            s: Symbol, inside: set<Symbol>, t: Symbol)
    requires Proper(m, rank) && ProperUsers(m, u) && Means(m, u, val) && Means(m, u', val')
    requires ChangedAt(m, u, u', s) && Closed(GraphOf(m), inside) && s in inside
    requires t in m.syms && t !in inside
    ensures SymVisibility(m, val, t) == SymVisibility(m, val', t)
  {
    ChangeIsLocal(m, rank, u, u', val, val', s, inside, t);
    FreshAgrees(m, rank, u, u', val, val', t);
  }

  /** The same for a choice, given one of its items. */
  lemma SelectionUnchanged(m: Model, rank: Symbol -> nat, u: Users, u': Users, val: PyValues, val': PyValues,
                           s: Symbol, inside: set<Symbol>, c: nat, t: Symbol)
    requires Proper(m, rank) && ProperUsers(m, u) && Means(m, u, val) && Means(m, u', val')
    requires ChangedAt(m, u, u', s) && Closed(GraphOf(m), inside) && s in inside
    requires t in m.choice(c).members && t !in inside
    ensures ChoiceVisibility(m, val, c) == ChoiceVisibility(m, val', c)
    ensures Selection(m, u, val, c) == Selection(m, u', val', c)
  {
    ChangeIsLocal(m, rank, u, u', val, val', s, inside, t);
    SelectionAgrees(m, rank, u, u', val, val', t, c);
  }
}
