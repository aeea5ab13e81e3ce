/** The tests by which menu_finalize decides that an entry belongs into an implicit submenu of
    the symbol before it: expr_contains_symbol, expr_depends_symbol, and the comparison of two
    visibilities through expr_trans_compare and expr_eliminate_eq. */
module Submenus {
  import opened Tristates
  import opened Exprs
  import opened Configuration
  import opened Simplify
  import opened Equality
  import opened Duplicates
  import opened Visibility

  // ---------- expr_trans_compare ----------

  /** expr_trans_compare on a non-null expression: `e = c` (or `e != c`) pushed down to the symbols, for one of
      the constants y, m, n. For m, && and || are left as they are. */
  function TransCompare(e: Expr, equal: bool, c: Symbol): Expr
    requires c.IsFixed()
  {
    match e
    case Bin(op, l, r) =>
      var both := if c == SymMod then e
                  else Bin(if c == SymYes then op else op.Dual(), TransCompare(l, true, c), TransCompare(r, true, c));
      if equal then both else Not(both)
    case Not(a) => TransCompare(a, !equal, c)
    case Sym(s) => if equal then Equal(s, c) else Unequal(s, c)
    case _ =>
      if c == SymMod then Sym(if equal then SymNo else SymYes)
      else if equal == (c == SymYes) then e
      else Not(e)
  }

  /** The null expression stands for y. */
  function TransCompareOpt(e: Option<Expr>, equal: bool, c: Symbol): Expr
    requires c.IsFixed()
  {
    if e.Some? then TransCompare(e.value, equal, c) else if equal then Sym(c) else Not(Sym(c))
  }

  /** The question expr_trans_compare is to answer. */
  function Compares(v: Valuation, e: Expr, equal: bool, c: Symbol): Tri {
    OfBool((Value(v, e) == v.tri(c)) == equal)
  }

  /** The string and the tristate of every symbol tell the same about c, and no negated operand has the value m. */
  predicate Comparable(v: Valuation, e: Expr, c: Symbol) {
    match e
    case Bin(_, l, r) => Comparable(v, l, c) && Comparable(v, r, c)
    case Not(a) => Comparable(v, a, c) && Value(v, a) != MOD
    case Sym(s) => (v.str(s) == v.str(c)) == (v.tri(s) == v.tri(c))
    case _ => true
  }

  /** Which is so for symbols that are bool, tristate, or y, m, n. */
  lemma LogicalIsComparable(v: Valuation, s: Symbol, c: Symbol)
    requires v.WellFormed() && c.IsFixed() && (s.IsLogical() || s.IsFixed())
    ensures Comparable(v, Sym(s), c)
  {
    assert s.IsLogical() ==> v.str(s) == Letter(v.tri(s));
  }

  lemma {:induction false} TransCompareIsExact(v: Valuation, e: Expr, equal: bool, c: Symbol)
    requires v.WellFormed() && Comparable(v, e, c) && (c == SymYes || c == SymNo)
    ensures Value(v, TransCompare(e, equal, c)) == Compares(v, e, equal, c)
  {
    match e
    case Bin(op, l, r) =>
      TransCompareIsExact(v, l, true, c);
      TransCompareIsExact(v, r, true, c);
      var both := Bin(if c == SymYes then op else op.Dual(), TransCompare(l, true, c), TransCompare(r, true, c));
      assert Value(v, both) == Compares(v, e, true, c);
      assert Value(v, Not(both)) == Negate(Value(v, both));
    case Not(a) => TransCompareIsExact(v, a, !equal, c);
    case Sym(s) =>
    case _ => assert Value(v, Not(e)) == Negate(Value(v, e));
  }

  /** With m, the answer for && and || is right exactly when the operator's value is n, for a comparison always, and
      for a symbol when its string and its tristate tell the same about m. */
  lemma TransCompareWithMod(v: Valuation, e: Expr, equal: bool)
    requires v.WellFormed() && !e.Not?
    ensures Value(v, TransCompare(e, equal, SymMod)) == Compares(v, e, equal, SymMod) <==>
              match e
              case Bin(_, _, _) => Value(v, e) == NO
              case Sym(s) => v.str(s) == "m" <==> v.tri(s) == MOD
              case _ => true
  {
    assert Value(v, Not(e)) == Negate(Value(v, e));
  }

  /** Going through a negation is right exactly when the operand is not m. */
  lemma TransCompareThroughNot(v: Valuation, a: Expr, equal: bool, c: Symbol)
    requires v.WellFormed() && Comparable(v, a, c) && (c == SymYes || c == SymNo)
    ensures Value(v, TransCompare(Not(a), equal, c)) == Compares(v, Not(a), equal, c) <==> Value(v, a) != MOD
  {
    TransCompareIsExact(v, a, !equal, c);
    assert Value(v, Not(a)) == Negate(Value(v, a));
  }

  /** For a plain symbol the comparison is right exactly when the symbol's string and its
      tristate tell the same about n; a string symbol fails this, being n as a tristate. */
  lemma TransCompareOfSymbol(v: Valuation, s: Symbol)
    requires v.WellFormed()
    ensures Value(v, TransCompare(Sym(s), false, SymNo)) == Compares(v, Sym(s), false, SymNo)
       <==> (v.str(s) == "n" <==> v.tri(s) == NO)
  {
  }

  /** The result compares and negates only, so its value is never m. */
  lemma {:induction false} TransCompareIsDefinite(v: Valuation, e: Expr, equal: bool, c: Symbol)
    requires c == SymYes || c == SymNo
    ensures Value(v, TransCompare(e, equal, c)) != MOD
  {
    match e
    case Bin(op, l, r) =>
      TransCompareIsDefinite(v, l, true, c);
      TransCompareIsDefinite(v, r, true, c);
      var both := Bin(if c == SymYes then op else op.Dual(), TransCompare(l, true, c), TransCompare(r, true, c));
      assert Value(v, Not(both)) == Negate(Value(v, both));
    case Not(a) => TransCompareIsDefinite(v, a, !equal, c);
    case Sym(s) =>
    case _ => assert Value(v, Not(e)) == Negate(Value(v, e));
  }

  // ---------- the test of menu_finalize ----------

  /** `e != n`, in the form in which menu_finalize compares it. */
  function NotNoForm(e: Option<Expr>): Expr {
    EliminateDups(Transform(TransCompareOpt(e, false, SymNo)))
  }

  predicate ComparableOpt(v: Valuation, e: Option<Expr>) {
    e.Some? ==> Comparable(v, e.value, SymNo)
  }

  /** expr_trans_compare tells whether e is n. */
  predicate ComparesRightly(v: Valuation, e: Option<Expr>) {
    Value(v, TransCompareOpt(e, false, SymNo)) == OfBool(ValueOpt(v, e) != NO)
  }

  lemma ComparableIsRight(v: Valuation, e: Option<Expr>)
    requires v.WellFormed() && ComparableOpt(v, e)
    ensures ComparesRightly(v, e)
  {
    if e.Some? {
      TransCompareIsExact(v, e.value, false, SymNo);
    } else {
      assert Value(v, Not(Sym(SymNo))) == Negate(Value(v, Sym(SymNo)));
    }
  }

  /** expr_contains_symbol */
  predicate ContainsSymbol(e: Expr, s: Symbol) {
    match e
    case Bin(_, l, r) => ContainsSymbol(l, s) || ContainsSymbol(r, s)
    case Not(a) => ContainsSymbol(a, s)
    case Sym(t) => t == s
    case Equal(l, r) => l == s || r == s
    case Unequal(l, r) => l == s || r == s
  }

  /** expr_depends_symbol */
  predicate DependsSymbol(e: Expr, s: Symbol) {
    match e
    case Bin(op, l, r) => op.AndOp? && (DependsSymbol(l, s) || DependsSymbol(r, s))
    case Sym(t) => t == s
    case Equal(l, r) => l == s && (r == SymYes || r == SymMod)
    case Unequal(l, r) => l == s && r == SymNo
    case Not(_) => false
  }

  /** An expression that does not mention a symbol does not depend on its value. */
  lemma {:induction false} UnmentionedSymbolIsIrrelevant(v: Valuation, w: Valuation, e: Expr, s: Symbol)
    requires !ContainsSymbol(e, s)
    requires forall t: Symbol :: t != s ==> v.tri(t) == w.tri(t) && v.str(t) == w.str(t)
    ensures Value(v, e) == Value(w, e)
  {
    match e
    case Bin(_, l, r) =>
      UnmentionedSymbolIsIrrelevant(v, w, l, s);
      UnmentionedSymbolIsIrrelevant(v, w, r, s);
    case Not(a) => UnmentionedSymbolIsIrrelevant(v, w, a, s);
    case Sym(t) =>
    case Equal(l, r) => assert v.str(l) == w.str(l) && v.str(r) == w.str(r);
    case Unequal(l, r) => assert v.str(l) == w.str(l) && v.str(r) == w.str(r);
  }

  /** expr_depends_symbol accepts exactly the conjunctions with an operand that asks for the symbol. */
  lemma {:induction false} DependsSymbolExactly(e: Expr, s: Symbol)
    ensures DependsSymbol(e, s) <==> exists x :: x in OperandList(AndOp, e) && AsksFor(x, s)
  {
    if e.HasOp(AndOp) {
      DependsSymbolExactly(e.left, s);
      DependsSymbolExactly(e.right, s);
    } else {
      assert e in OperandList(AndOp, e);
    }
  }

  /** FOO, FOO = y, FOO = m or FOO != n */
  predicate AsksFor(x: Expr, s: Symbol) {
    x == Sym(s) || x == Equal(s, SymYes) || x == Equal(s, SymMod) || x == Unequal(s, SymNo)
  }

  lemma {:induction false} ContainsSymbolExactly(e: Expr, s: Symbol)
    ensures ContainsSymbol(e, s) <==> s in Symbols(e)
  {
    match e
    case Not(a) => ContainsSymbolExactly(a, s);
    case Bin(_, l, r) =>
      ContainsSymbolExactly(l, s);
      ContainsSymbolExactly(r, s);
    case _ =>
  }

  /** What expr_depends_symbol accepts can only be visible while the symbol is not n. */
  lemma {:induction false} DependsSymbolNeedsIt(v: Valuation, e: Expr, s: Symbol)
    requires v.WellFormed() && s.IsLogical() && DependsSymbol(e, s)
    ensures Value(v, e) != NO ==> v.tri(s) != NO
    ensures ContainsSymbol(e, s)
  {
    match e
    case Bin(op, l, r) =>
      if DependsSymbol(l, s) {
        DependsSymbolNeedsIt(v, l, s);
      } else {
        DependsSymbolNeedsIt(v, r, s);
      }
    case _ =>
  }

  lemma {:induction false} DependsSymbolMentions(e: Expr, s: Symbol)
    requires DependsSymbol(e, s)
    ensures ContainsSymbol(e, s)
  {
    match e
    case Bin(_, l, r) => DependsSymbolMentions(if DependsSymbol(l, s) then l else r, s);
    case _ =>
  }

  /** The comparison of visibilities: cancelling reduces the parent's to y. */
  predicate ImpliedBy(dep: Option<Expr>, base: Option<Expr>) {
    EliminateEq(NotNoForm(dep), NotNoForm(base)).1 == Sym(SymYes)
  }

  /** The rewriting of the comparison keeps its value, which is never m. */
  lemma NotNoFormCompares(v: Valuation, e: Option<Expr>)
    requires v.WellFormed()
    ensures Value(v, NotNoForm(e)) == Value(v, TransCompareOpt(e, false, SymNo))
  {
    var c := TransCompareOpt(e, false, SymNo);
    TransformKeepsValue(v, c);
    if e.Some? {
      TransCompareIsDefinite(v, e.value, false, SymNo);
    } else {
      assert Value(v, Not(Sym(SymNo))) == Negate(Value(v, Sym(SymNo)));
    }
    EliminateDupsRefines(v, Transform(c));
  }

  /** What the test means for any two conditions: where the comparison says that the entry is visible, it says so
      of the entry that absorbs it. */
  lemma ImpliedByCompares(v: Valuation, dep: Option<Expr>, base: Option<Expr>)
    requires v.WellFormed() && ImpliedBy(dep, base)
    ensures Value(v, TransCompareOpt(dep, false, SymNo)) <= Value(v, TransCompareOpt(base, false, SymNo))
  {
    EliminatedToYesIsImplied(v, NotNoForm(dep), NotNoForm(base));
    NotNoFormCompares(v, dep);
    NotNoFormCompares(v, base);
  }

  /** So an entry absorbed by this test is visible only where the entry that absorbs it is, as far as the
      comparison answers rightly for the two. */
  lemma ImpliedByIsSound(v: Valuation, dep: Option<Expr>, base: Option<Expr>)
    requires v.WellFormed() && ImpliedBy(dep, base)
    ensures ComparesRightly(v, dep) && ComparesRightly(v, base) ==>
              (ValueOpt(v, dep) != NO ==> ValueOpt(v, base) != NO)
    ensures ComparableOpt(v, dep) && ComparableOpt(v, base) ==>
              (ValueOpt(v, dep) != NO ==> ValueOpt(v, base) != NO)
  {
    ImpliedByCompares(v, dep, base);
    if ComparableOpt(v, dep) && ComparableOpt(v, base) {
      ComparableIsRight(v, dep);
      ComparableIsRight(v, base);
    }
  }

  /** Without y and n, on its own or as an operand. */
  predicate Plain(e: Expr) {
    ConstantFree(e) && !e.IsYesNo()
  }

  /** Without y and n in the two comparisons the test accepts exactly what is a conjunction with all the operands of the
      other. */
  lemma ImpliedByExactly(dep: Option<Expr>, base: Option<Expr>)
    requires Plain(NotNoForm(dep)) && Plain(NotNoForm(base))
    ensures ImpliedBy(dep, base) <==>
              NotNoForm(dep).HasOp(AndOp) && Operands(AndOp, NotNoForm(base)) <= Operands(AndOp, NotNoForm(dep))
  {
    EliminatedToYesExactly(NotNoForm(dep), NotNoForm(base));
  }

  /** What is compared is simplified: in negation normal form, and without duplicates. */
  lemma NotNoFormIsSimplified(e: Option<Expr>)
    ensures Nnf(NotNoForm(e)) && Irredundant(NotNoForm(e))
  {
    var c := Transform(TransCompareOpt(e, false, SymNo));
    TransformIsNnf(TransCompareOpt(e, false, SymNo));
    EliminateDupsKeepsNnf(c);
    EliminateDupsIsIrredundant(c);
  }
}
