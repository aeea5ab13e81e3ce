/** What menu_finalize leaves in rev_dep and dir_dep of the symbols, and what it means: a symbol is selected to the
    highest value that a select of the finalized tree asks for. */
module MenuEffects {
  import opened Tristates
  import opened Exprs
  import opened Visibility
  import opened MenuTrees

  /** expr_alloc_or */
  function AllocOr(a: Option<Expr>, b: Option<Expr>): Option<Expr> {
    if a == None then b else if b == None then a else Some(Bin(OrOp, a.value, b.value))
  }

  /** `rev_dep.expr` of the target after what has been logged. */
  function RevDepAfter<M>(log: seq<Event<M>>, target: Symbol): Option<Expr> {
    if log == [] then None
    else
      var before := RevDepAfter(log[..|log| - 1], target);
      match log[|log| - 1]
      case AddRevDep(t, s, d) =>
        if t == target && s.Some? then AllocOr(before, AllocAnd(Some(Sym(s.value)), d)) else before
      case _ => before
  }

  /** `dir_dep.expr` of s. */
  function DirDepAfter<M>(log: seq<Event<M>>, s: Symbol): Option<Expr> {
    if log == [] then None
    else
      var before := DirDepAfter(log[..|log| - 1], s);
      match log[|log| - 1]
      case AddDirDep(t, d) => if t == s then AllocOr(before, d) else before
      case _ => before
  }

  /** A select by s under the condition d asks for at least t. */
  predicate Asks(v: Valuation, s: Option<Symbol>, d: Option<Expr>, t: Tri) {
    s.Some? && Min(v.tri(s.value), ValueOpt(v, d)) >= t
  }

  ghost predicate AskedFor<M(!new)>(v: Valuation, log: seq<Event<M>>, target: Symbol, t: Tri) {
    exists s, d :: AddRevDep(target, s, d) in log && Asks(v, s, d, t)
  }

  lemma AskedForOnceMore<M(!new)>(v: Valuation, before: seq<Event<M>>, last: Event<M>, target: Symbol, t: Tri)
    ensures AskedFor(v, before + [last], target, t)
       <==> AskedFor(v, before, target, t)
            || (last.AddRevDep? && last.target == target && Asks(v, last.selector, last.dep, t))
  {
    var log := before + [last];
    assert forall e :: e in log <==> e in before || e == last;
    if last.AddRevDep? {
      assert AddRevDep(last.target, last.selector, last.dep) in log;
    }
  }

  lemma AllocMeans(v: Valuation, before: Option<Expr>, s: Symbol, d: Option<Expr>, t: Tri)
    ensures var r := AllocOr(before, AllocAnd(Some(Sym(s)), d));
            && r.Some?
            && (Value(v, r.value) >= t <==> (before.Some? && Value(v, before.value) >= t) || Asks(v, Some(s), d, t))
  {
    var asked := AllocAnd(Some(Sym(s)), d).value;
    assert Value(v, Sym(s)) == v.tri(s);
    assert Value(v, asked) == Min(v.tri(s), ValueOpt(v, d));
    if before.Some? {
      assert Value(v, Bin(OrOp, before.value, asked)) == Max(Value(v, before.value), Value(v, asked));
    }
  }

  lemma {:induction false} RevDepMeans<M(!new)>(v: Valuation, log: seq<Event<M>>, target: Symbol, t: Tri)
    requires t != NO
    ensures var r := RevDepAfter(log, target); (r.Some? && Value(v, r.value) >= t) <==> AskedFor(v, log, target, t)
  {
    if log != [] {
      hide AskedFor, Asks, AllocOr, AllocAnd, Value;
      var before, last := log[..|log| - 1], log[|log| - 1];
      RevDepMeans(v, before, target, t);
      AskedForOnceMore(v, before, last, target, t);
      assert log == before + [last];
      if last.AddRevDep? && last.target == target {
        if last.selector.Some? {
          AllocMeans(v, RevDepAfter(before, target), last.selector.value, last.dep, t);
        } else {
          NobodyAsks(v, last.dep, t);
        }
      }
    }
  }

  lemma NobodyAsks(v: Valuation, d: Option<Expr>, t: Tri)
    ensures !Asks(v, None, d, t)
  {
  }

  /** rev_dep of a symbol is at least m (or at least y) exactly if an entry of the finalized tree selects it with a
      symbol and under a condition that both are. */
  lemma SelectedToHighest<M(!new)>(v: Valuation, root: Tree<M>, target: Symbol, t: Tri)
    requires t != NO
    ensures var r := RevDepAfter(Finalize(root, []).2, target);
            r.Some? && Value(v, r.value) >= t
            <==> exists e, p :: e in Entries(Finalize(root, []).0.kids) && p in e.props
                                && p.select == Some(target) && Asks(v, e.sym, p.visible, t)
  {
    hide Finalize, Entries;
    var log, es := Finalize(root, []).2, Entries(Finalize(root, []).0.kids);
    RevDepMeans(v, log, target, t);
    forall s, d ensures AddRevDep(target, s, d) in log
      <==> exists e, p :: e in es && e.sym == s && p in e.props && p.select == Some(target) && p.visible == d
    {
      RevDepsAreSelects(root, target, s, d);
      SelectionsExist(es, target, s, d);
    }
    if e, p :| e in es && p in e.props && p.select == Some(target) && Asks(v, e.sym, p.visible, t) {
      assert AddRevDep(target, e.sym, p.visible) in log;
    }
  }

  /** dir_dep of a symbol is the disjunction of the conditions its entries have; an entry without a condition adds
      nothing to it, so it is missing only if no entry has one. */
  lemma {:induction false} DirDepMeans<M>(v: Valuation, log: seq<Event<M>>, s: Symbol, t: Tri)
    requires t != NO
    ensures var r := DirDepAfter(log, s);
            && (r == None <==> forall d :: AddDirDep(s, Some(d)) !in log)
            && (r.Some? ==> (Value(v, r.value) >= t <==> exists d :: AddDirDep(s, Some(d)) in log && Value(v, d) >= t))
  {
    if log != [] {
      var before, last := log[..|log| - 1], log[|log| - 1];
      DirDepMeans(v, before, s, t);
      assert log == before + [last];
      forall d
        ensures AddDirDep(s, Some(d)) in log <==> AddDirDep(s, Some(d)) in before || AddDirDep(s, Some(d)) == last
      {
      }
      if last.AddDirDep? && last.sym == s && last.dep.Some? {
        assert AddDirDep(s, Some(last.dep.value)) in log;
      }
    }
  }
}
