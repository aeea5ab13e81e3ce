/** The rewrites of support/kconfig/expr.c that work on one tree: constant elimination,
    negation normal form, and the two rewrites menu_finalize applies to visibilities. */
module Simplify {
  import opened Tristates
  import opened Exprs

  // ---------- expr_eliminate_yn ----------

  /** Remove y and n below && and ||. The original does not look below a negation. */
  function EliminateYn(e: Expr): Expr {
    match e
    case Bin(op, l, r) =>
      var l' := EliminateYn(l);
      var r' := EliminateYn(r);
      if l' == Sym(op.Zero()) then Sym(op.Zero())
      else if l' == Sym(op.Unit()) then r'
      else if r' == Sym(op.Zero()) then Sym(op.Zero())
      else if r' == Sym(op.Unit()) then l'
      else Bin(op, l', r')
    case _ => e
  }

  /** No && or || (outside negations) has a y or n operand. */
  predicate YnFree(e: Expr) {
    match e
    case Bin(_, l, r) => !l.IsYesNo() && !r.IsYesNo() && YnFree(l) && YnFree(r)
    case _ => true
  }

  lemma {:induction false} EliminateYnKeepsValue(v: Valuation, e: Expr)
    requires v.WellFormed()
    ensures Value(v, EliminateYn(e)) == Value(v, e)
  {
    match e
    case Bin(op, l, r) =>
      EliminateYnKeepsValue(v, l);
      EliminateYnKeepsValue(v, r);
    case _ =>
  }

  /** The result has nothing left to remove, and is smaller unless there was nothing to remove. */
  lemma {:induction false} EliminateYnShrinks(e: Expr)
    ensures YnFree(EliminateYn(e))
    ensures if YnFree(e) then EliminateYn(e) == e else Size(EliminateYn(e)) < Size(e)
  {
    match e
    case Bin(op, l, r) =>
      EliminateYnShrinks(l);
      EliminateYnShrinks(r);
      SizePositive(l);
      SizePositive(r);
    case _ =>
  }

  // ---------- expr_transform ----------

  /** Decreases in every recursive call of expr_transform. A negation doubles the weight of
      what it covers, so pushing one through && or || (which adds nodes) still loses weight. */
  function Weight(e: Expr): nat {
    match e
    case Sym(_) => 1
    case Equal(_, _) => 2
    case Unequal(_, _) => 2
    case Not(a) => 2 * Weight(a)
    case Bin(_, l, r) => 1 + Weight(l) + Weight(r)
  }

  lemma {:induction false} WeightPositive(e: Expr)
    ensures Weight(e) >= 1
  {
    match e
    case Not(a) => WeightPositive(a);
    case _ =>
  }

  lemma PushingNotLosesWeight(op: Op, l: Expr, r: Expr)
    ensures Weight(Bin(op.Dual(), Not(l), Not(r))) < Weight(Not(Bin(op, l, r)))
  {
    assert Weight(Not(l)) == 2 * Weight(l) && Weight(Not(r)) == 2 * Weight(r);
    assert Weight(Not(Bin(op, l, r))) == 2 * Weight(Bin(op, l, r));
  }

  /** The E_EQUAL and E_UNEQUAL cases: a bool symbol compared with y, m or n. */
  function TransformComparison(e: Expr): (r: Expr)
    requires e.Equal? || e.Unequal?
  {
    if !e.lsym.Type().Boolean? then e
    else if e.rsym == SymNo then (if e.Equal? then Not(Sym(e.lsym)) else Sym(e.lsym))
    else if e.rsym == SymMod then Sym(if e.Equal? then SymNo else SymYes)
    else if e.rsym == SymYes then (if e.Equal? then Sym(e.lsym) else Not(Sym(e.lsym)))
    else e
  }

  /** expr_transform on a non-null expression. */
  function Transform(e: Expr): (r: Expr)
    ensures Weight(r) <= Weight(e)
    decreases Weight(e)
  {
    match e
    case Sym(_) => e
    case Equal(_, _) => TransformComparison(e)
    case Unequal(_, _) => TransformComparison(e)
    case Bin(op, l, r) => Bin(op, Transform(l), Transform(r))
    case Not(a) =>
      WeightPositive(a);
      var a' := Transform(a);
      match a' {
        case Not(b) => WeightPositive(b); Transform(b)
        case Equal(l, r) => Unequal(l, r)
        case Unequal(l, r) => Equal(l, r)
        case Bin(op, l, r) => PushingNotLosesWeight(op, l, r); Transform(Bin(op.Dual(), Not(l), Not(r)))
        case Sym(s) =>
          if s == SymYes then Sym(SymNo)
          else if s == SymMod then Sym(SymMod)
          else if s == SymNo then Sym(SymYes)
          else Not(a')
      }
  }

  /** Negation normal form: a negation stands only on a symbol that is none of y, m, n. */
  predicate Nnf(e: Expr) {
    match e
    case Not(a) => a.Sym? && !a.sym.IsFixed()
    case Bin(_, l, r) => Nnf(l) && Nnf(r)
    case _ => true
  }

  /** A bool symbol compared with y, m or n. */
  predicate Reducible(l: Symbol, r: Symbol) {
    l.Type().Boolean? && r.IsFixed()
  }

  /** No such comparison is left. */
  predicate ComparisonsReduced(e: Expr) {
    match e
    case Sym(_) => true
    case Equal(l, r) => !Reducible(l, r)
    case Unequal(l, r) => !Reducible(l, r)
    case Not(a) => ComparisonsReduced(a)
    case Bin(_, l, r) => ComparisonsReduced(l) && ComparisonsReduced(r)
  }

  lemma DeMorgan(v: Valuation, op: Op, l: Expr, r: Expr)
    ensures Value(v, Bin(op.Dual(), Not(l), Not(r))) == Value(v, Not(Bin(op, l, r)))
  {
    assert Value(v, Not(l)) == Negate(Value(v, l)) && Value(v, Not(r)) == Negate(Value(v, r));
    assert Value(v, Not(Bin(op, l, r))) == Negate(Value(v, Bin(op, l, r)));
  }

  lemma ComparisonKeepsValue(v: Valuation, e: Expr)
    requires v.WellFormed() && (e.Equal? || e.Unequal?)
    ensures Value(v, TransformComparison(e)) == Value(v, e)
  {
  }

  lemma {:induction false} TransformKeepsValue(v: Valuation, e: Expr)
    requires v.WellFormed()
    ensures Value(v, Transform(e)) == Value(v, e)
    decreases Weight(e)
  {
    match e
    case Sym(_) =>
    case Equal(l, r) => ComparisonKeepsValue(v, e);
    case Unequal(l, r) => ComparisonKeepsValue(v, e);
    case Bin(op, l, r) =>
      TransformKeepsValue(v, l);
      TransformKeepsValue(v, r);
    case Not(a) =>
      WeightPositive(a);
      TransformKeepsValue(v, a);
      match Transform(a) {
        case Not(b) =>
          WeightPositive(b);
          TransformKeepsValue(v, b);
        case Bin(op, l, r) =>
          PushingNotLosesWeight(op, l, r);
          DeMorgan(v, op, l, r);
          TransformKeepsValue(v, Bin(op.Dual(), Not(l), Not(r)));
        case _ =>
      }
  }

  lemma {:induction false} TransformIsNnf(e: Expr)
    ensures Nnf(Transform(e)) && ComparisonsReduced(Transform(e))
    decreases Weight(e)
  {
    match e
    case Sym(_) =>
    case Equal(l, r) =>
    case Unequal(l, r) =>
    case Bin(op, l, r) =>
      TransformIsNnf(l);
      TransformIsNnf(r);
    case Not(a) =>
      WeightPositive(a);
      TransformIsNnf(a);
      match Transform(a) {
        case Not(b) =>
          WeightPositive(b);
          TransformIsNnf(b);
        case Bin(op, l, r) =>
          PushingNotLosesWeight(op, l, r);
          TransformIsNnf(Bin(op.Dual(), Not(l), Not(r)));
        case _ =>
      }
  }

  /** On its own results expr_transform is the identity, so a second pass finds nothing to do. */
  lemma {:induction false} TransformFixesNnf(e: Expr)
    requires Nnf(e) && ComparisonsReduced(e)
    ensures Transform(e) == e
  {
    match e
    case Bin(op, l, r) =>
      TransformFixesNnf(l);
      TransformFixesNnf(r);
    case _ =>
  }

  lemma TransformIdempotent(e: Expr)
    ensures Transform(Transform(e)) == Transform(e)
  {
    TransformIsNnf(e);
    TransformFixesNnf(Transform(e));
  }

  // ---------- expr_trans_bool ----------

  /** A comparison the rewrite changes. */
  predicate Rewritten(l: Symbol, r: Symbol) {
    l.Type().Tristate? && r == SymNo
  }

  /** FOO != n becomes FOO for a tristate FOO. */
  function TransBool(e: Expr): Expr {
    match e
    case Bin(op, l, r) => Bin(op, TransBool(l), TransBool(r))
    case Not(a) => Not(TransBool(a))
    case Unequal(l, r) => if Rewritten(l, r) then Sym(l) else e
    case _ => e
  }

  /** Kleene's information order: mod is "undecided", y and n are decided for good. */
  predicate Refines(a: Tri, b: Tri) {
    a == MOD || a == b
  }

  /** Whatever the rewrite yields is m or the value from before, so a condition that is not n never becomes n. */
  lemma {:induction false} TransBoolLoosens(v: Valuation, e: Expr)
    requires v.WellFormed()
    ensures Refines(Value(v, TransBool(e)), Value(v, e))
    ensures Value(v, e) != NO ==> Value(v, TransBool(e)) != NO
  {
    match e
    case Bin(_, l, r) =>
      TransBoolLoosens(v, l);
      TransBoolLoosens(v, r);
    case Not(a) => TransBoolLoosens(v, a);
    case _ =>
  }

  /** No comparison that it would change. */
  predicate NothingToRewrite(e: Expr) {
    match e
    case Unequal(l, r) => !Rewritten(l, r)
    case Not(a) => NothingToRewrite(a)
    case Bin(_, l, r) => NothingToRewrite(l) && NothingToRewrite(r)
    case _ => true
  }

  lemma {:induction false} TransBoolRewritesAll(e: Expr)
    ensures NothingToRewrite(TransBool(e)) && (TransBool(e) == e <==> NothingToRewrite(e))
  {
    match e
    case Bin(_, l, r) =>
      TransBoolRewritesAll(l);
      TransBoolRewritesAll(r);
    case Not(a) => TransBoolRewritesAll(a);
    case _ =>
  }

  ghost predicate NoTristateIsMod(v: Valuation) {
    forall s: Symbol :: s.Type().Tristate? ==> v.tri(s) != MOD
  }

  /** While no tristate symbol is m, as without modules, it changes no value at all. */
  lemma {:induction false} TransBoolKeepsValue(v: Valuation, e: Expr)
    requires v.WellFormed() && NoTristateIsMod(v)
    ensures Value(v, TransBool(e)) == Value(v, e)
  {
    match e
    case Bin(_, l, r) =>
      TransBoolKeepsValue(v, l);
      TransBoolKeepsValue(v, r);
    case Not(a) => TransBoolKeepsValue(v, a);
    case Unequal(l, r) => assert l.Type().Tristate? ==> v.str(l) == Letter(v.tri(l));
    case _ =>
  }

  /** When e has the value x, which is y or n, and loses it: told from e and the values of the symbols. An
      operand with the value that decides an operator must lose it, and so must every other one. */
  predicate LosesValue(v: Valuation, e: Expr, x: Tri) {
    match e
    case Unequal(l, r) => Rewritten(l, r) && x == YES && v.tri(l) == MOD
    case Not(a) => LosesValue(v, a, Negate(x))
    case Bin(op, l, r) =>
      if x == (if op.AndOp? then NO else YES) then
        && (Value(v, l) == x || Value(v, r) == x)
        && (Value(v, l) == x ==> LosesValue(v, l, x))
        && (Value(v, r) == x ==> LosesValue(v, r, x))
      else
        Value(v, l) == x && Value(v, r) == x && (LosesValue(v, l, x) || LosesValue(v, r, x))
    case _ => false
  }

  lemma {:induction false} LosesValueExactly(v: Valuation, e: Expr, x: Tri)
    requires v.WellFormed() && x != MOD
    ensures LosesValue(v, e, x) <==> Value(v, e) == x && Value(v, TransBool(e)) != x
  {
    TransBoolLoosens(v, e);
    match e
    case Bin(_, l, r) =>
      LosesValueExactly(v, l, x);
      LosesValueExactly(v, r, x);
      TransBoolLoosens(v, l);
      TransBoolLoosens(v, r);
    case Not(a) => LosesValueExactly(v, a, Negate(x));
    case _ =>
  }

  /** So "not n" is kept, if and only if the expression does not lose the value n. */
  lemma TransBoolKeepsNotNoExactly(v: Valuation, e: Expr)
    requires v.WellFormed()
    ensures (Value(v, TransBool(e)) != NO <==> Value(v, e) != NO) <==> !LosesValue(v, e, NO)
  {
    LosesValueExactly(v, e, NO);
    TransBoolLoosens(v, e);
  }

  /** What is rewritten stands below an even number of negations (`even`), or below an odd number. */
  predicate RewrittenAt(even: bool, e: Expr)
    decreases e
  {
    match e
    case Unequal(l, r) => even || !Rewritten(l, r)
    case Not(a) => RewrittenAt(!even, a)
    case Bin(_, l, r) => RewrittenAt(even, l) && RewrittenAt(even, r)
    case _ => true
  }

  /** Below an even number of negations the rewrite keeps "not n", below an odd number "not y". */
  lemma {:induction false} ParityProtects(v: Valuation, even: bool, e: Expr)
    requires v.WellFormed() && RewrittenAt(even, e)
    ensures !LosesValue(v, e, if even then NO else YES)
    decreases e
  {
    match e
    case Bin(_, l, r) =>
      ParityProtects(v, even, l);
      ParityProtects(v, even, r);
    case Not(a) => ParityProtects(v, !even, a);
    case _ =>
  }

  lemma {:induction false} NnfIsEven(e: Expr)
    requires Nnf(e)
    ensures RewrittenAt(true, e)
  {
    match e
    case Bin(_, l, r) =>
      NnfIsEven(l);
      NnfIsEven(r);
    case _ =>
  }

  /** In negation normal form in particular (but not the value itself) ... */
  lemma TransBoolKeepsNotNo(v: Valuation, e: Expr)
    requires v.WellFormed() && Nnf(e)
    ensures Value(v, TransBool(e)) != NO <==> Value(v, e) != NO
  {
    NnfIsEven(e);
    ParityProtects(v, true, e);
    TransBoolKeepsNotNoExactly(v, e);
  }

  /** ... so the promoted visibility of a symbol that is not tristate stays what it was. */
  lemma TransBoolKeepsPromotedVisibility(v: Valuation, e: Expr)
    requires v.WellFormed() && Nnf(e)
    ensures Promote(Value(v, TransBool(e))) == Promote(Value(v, e))
  {
    TransBoolKeepsNotNo(v, e);
  }
}
