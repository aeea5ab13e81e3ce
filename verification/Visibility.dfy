/** The rewriting menu_finalize applies to every dependency and prompt condition, and why the
    expr_trans_bool step at its end is safe: the rewriting never leaves negation normal form. */
module Visibility {
  import opened Tristates
  import opened Exprs
  import opened Simplify
  import opened Equality
  import opened Duplicates

  lemma {:induction false} EliminateYnKeepsNnf(e: Expr)
    requires Nnf(e)
    ensures Nnf(EliminateYn(e))
  {
    match e
    case Bin(_, l, r) =>
      EliminateYnKeepsNnf(l);
      EliminateYnKeepsNnf(r);
    case _ =>
  }

  lemma {:induction false} Dups1KeepsNnf(op: Op, t: Expr, p1: Path, p2: Path)
    requires Nnf(t) && t.HasOp(op) && OnSpine(op, t, p1) && OnSpine(op, t, p2)
    ensures Nnf(Dups1(op, t, p1, p2).0)
    decreases Size(t), SpineSize(op, At(op, t, p1)) + SpineSize(op, At(op, t, p2))
  {
    var e1 := At(op, t, p1);
    var e2 := At(op, t, p2);
    if e1.HasOp(op) {
      StepDown(op, t, p1, L);
      StepDown(op, t, p1, R);
      var t1 := Dups1(op, t, p1 + [L], p2).0;
      SameSpineSlots(op, t, t1, p1 + [R]);
      SameSpineSlots(op, t, t1, p2);
      Dups1KeepsNnf(op, t, p1 + [L], p2);
      Dups1KeepsNnf(op, t1, p1 + [R], p2);
    } else if e2.HasOp(op) {
      StepDown(op, t, p2, L);
      StepDown(op, t, p2, R);
      var t1 := Dups1(op, t, p1, p2 + [L]).0;
      SameSpineSlots(op, t, t1, p2 + [R]);
      SameSpineSlots(op, t, t1, p1);
      Dups1KeepsNnf(op, t, p1, p2 + [L]);
      Dups1KeepsNnf(op, t1, p1, p2 + [R]);
    } else if p1 != p2 {
      PutOperand(op, t, p1, e1);
      var x1 := if e1.Bin? then Dups1(e1.op, e1, [], []).0 else e1;
      if e1.Bin? {
        Dups1KeepsNnf(e1.op, e1, [], []);
      }
      PutOperand(op, t, p1, x1);
      if Join(op, x1, e2).Some? {
        JoinWritten(op, t, p1, p2, x1);
      }
    }
  }

  lemma {:induction false} Dups2KeepsNnf(op: Op, t: Expr, p1: Path, p2: Path)
    requires Nnf(t) && t.HasOp(op) && OnSpine(op, t, p1) && OnSpine(op, t, p2)
    ensures Nnf(Dups2(op, t, p1, p2).0)
    decreases Size(t), SpineSize(op, At(op, t, p1)) + SpineSize(op, At(op, t, p2)), 1
  {
    var e1 := At(op, t, p1);
    if e1.HasOp(op) {
      StepDown(op, t, p1, L);
      StepDown(op, t, p1, R);
      var t1 := Dups2(op, t, p1 + [L], p2).0;
      SameSpineSlots(op, t, t1, p1 + [R]);
      SameSpineSlots(op, t, t1, p2);
      Dups2KeepsNnf(op, t, p1 + [L], p2);
      Dups2KeepsNnf(op, t1, p1 + [R], p2);
    } else if At(op, t, p2).HasOp(op) {
      StepDown(op, t, p2, L);
      StepDown(op, t, p2, R);
      var t1 := Dups2(op, t, p1, p2 + [L]).0;
      SameSpineSlots(op, t, t1, p2 + [R]);
      SameSpineSlots(op, t, t1, p1);
      Dups2KeepsNnf(op, t, p1, p2 + [L]);
      Dups2KeepsNnf(op, t1, p1, p2 + [R]);
      var t2 := Dups2(op, t1, p1, p2 + [R]).0;
      SameSpineTransitive(op, t, t1, t2);
      SameSpineSlots(op, t, t2, p1);
      SameSpineSlots(op, t, t2, p2);
      Dups2OperandKeepsNnf(op, t2, p1, p2);
    } else {
      Dups2OperandKeepsNnf(op, t, p1, p2);
    }
  }

  lemma {:induction false} Dups2OperandKeepsNnf(op: Op, t: Expr, p1: Path, p2: Path)
    requires Nnf(t) && t.HasOp(op) && IsOperand(op, t, p1) && OnSpine(op, t, p2)
    ensures Nnf(Dups2Operand(op, t, p1, p2).0)
    decreases Size(t), SpineSize(op, At(op, t, p1)) + SpineSize(op, At(op, t, p2)), 0
  {
    var e1 := At(op, t, p1);
    if p1 != p2 && e1.Bin? {
      PutOperand(op, t, p1, e1);
      var x1 := Dups2(e1.op, e1, [], []).0;
      Dups2KeepsNnf(e1.op, e1, [], []);
      PutOperand(op, t, p1, x1);
      PutOperand(op, Put(op, t, p1, x1), p1, Sym(op.Zero()));
    }
  }

  lemma {:induction false} EliminateDupsKeepsNnf(e: Expr)
    requires Nnf(e)
    ensures Nnf(EliminateDups(e))
    decreases Size(e)
  {
    if e.Bin? {
      var (t1, _) := Dups1(e.op, e, [], []);
      var (t, n) := Pass(e);
      Dups1KeepsNnf(e.op, e, [], []);
      Dups2KeepsNnf(e.op, t1, [], []);
      if n > 0 {
        EliminateYnKeepsNnf(t);
        EliminateYnShrinks(t);
        EliminateDupsKeepsNnf(EliminateYn(t));
      }
    }
  }

  lemma {:induction false} TransBoolKeepsNnf(e: Expr)
    requires Nnf(e)
    ensures Nnf(TransBool(e))
  {
    match e
    case Bin(_, l, r) =>
      TransBoolKeepsNnf(l);
      TransBoolKeepsNnf(r);
    case _ =>
  }

  // ---------- nullable expressions ----------

  /** expr_alloc_and */
  function AllocAnd(a: Option<Expr>, b: Option<Expr>): Option<Expr> {
    if a == None then b else if b == None then a else Some(Bin(AndOp, a.value, b.value))
  }

  function TransformOpt(e: Option<Expr>): Option<Expr> {
    if e.Some? then Some(Transform(e.value)) else None
  }

  function EliminateDupsOpt(e: Option<Expr>): Option<Expr> {
    if e.Some? then Some(EliminateDups(e.value)) else None
  }

  function TransBoolOpt(e: Option<Expr>): Option<Expr> {
    if e.Some? then Some(TransBool(e.value)) else None
  }

  predicate NnfOpt(e: Option<Expr>) {
    e.Some? ==> Nnf(e.value)
  }

  /** `own` as menu_finalize leaves it below `inherited`. */
  function Inherit(inherited: Option<Expr>, own: Option<Expr>): Option<Expr> {
    EliminateDupsOpt(AllocAnd(inherited, TransformOpt(own)))
  }

  /** A prompt's condition additionally passes through expr_trans_bool unless the symbol is tristate. */
  function InheritPrompt(inherited: Option<Expr>, own: Option<Expr>, tristate: bool): Option<Expr> {
    if tristate then Inherit(inherited, own) else TransBoolOpt(Inherit(inherited, own))
  }

  /** Below a condition in normal form, only conditions in normal form are produced ... */
  lemma InheritedIsNnf(inherited: Option<Expr>, own: Option<Expr>, tristate: bool)
    requires NnfOpt(inherited)
    ensures NnfOpt(Inherit(inherited, own)) && NnfOpt(InheritPrompt(inherited, own, tristate))
  {
    if own.Some? {
      TransformIsNnf(own.value);
    }
    var both := AllocAnd(inherited, TransformOpt(own));
    if both.Some? {
      EliminateDupsKeepsNnf(both.value);
      TransBoolKeepsNnf(EliminateDups(both.value));
    }
  }

  /** What is inherited is simplified: it holds no duplicates. */
  lemma InheritedIsIrredundant(inherited: Option<Expr>, own: Option<Expr>)
    ensures var e := Inherit(inherited, own); e.Some? ==> Irredundant(e.value)
  {
    var both := AllocAnd(inherited, TransformOpt(own));
    if both.Some? {
      EliminateDupsIsIrredundant(both.value);
    }
  }

  /** ... so the expr_trans_bool step never changes a promoted visibility. */
  lemma TransBoolStepIsInvisible(v: Valuation, inherited: Option<Expr>, own: Option<Expr>)
    requires v.WellFormed() && NnfOpt(inherited)
    ensures Promote(ValueOpt(v, InheritPrompt(inherited, own, false)))
         == Promote(ValueOpt(v, InheritPrompt(inherited, own, true)))
  {
    InheritedIsNnf(inherited, own, true);
    var e := Inherit(inherited, own);
    if e.Some? {
      TransBoolKeepsPromotedVisibility(v, e.value);
    }
  }

  /** The whole rewriting computes the conjunction, up to deciding an undecided one. */
  lemma InheritMeansBoth(v: Valuation, inherited: Option<Expr>, own: Option<Expr>)
    requires v.WellFormed()
    ensures Refines(Min(ValueOpt(v, inherited), ValueOpt(v, own)), ValueOpt(v, Inherit(inherited, own)))
  {
    if own.Some? {
      TransformKeepsValue(v, own.value);
    }
    var both := AllocAnd(inherited, TransformOpt(own));
    if both.Some? {
      EliminateDupsRefines(v, both.value);
    }
  }

  /** Below an odd number of negations expr_trans_bool makes an invisible prompt visible: for an m-valued FOO, what
      is n with FOO != n in it becomes m. */
  lemma {:induction false} TransBoolBelowOddNegations(v: Valuation, s: Symbol, e: Expr)
    requires v.WellFormed() && s.Type().Tristate? && v.tri(s) == MOD && OddNegation(s, e)
    ensures !RewrittenAt(true, e) && Value(v, e) == NO && Value(v, TransBool(e)) == MOD
  {
    if e.arg.Not? {
      assert TransBool(e.arg) == Not(TransBool(e.arg.arg)) && TransBool(e) == Not(TransBool(e.arg));
      assert Value(v, e.arg) == Negate(Value(v, e.arg.arg)) && Value(v, e) == Negate(Value(v, e.arg));
      assert RewrittenAt(true, e) == RewrittenAt(true, e.arg.arg);
      TransBoolBelowOddNegations(v, s, e.arg.arg);
    }
  }

  /** `s != n` below an odd number of negations and nothing else */
  predicate OddNegation(s: Symbol, e: Expr) {
    e.Not? && (e.arg == Unequal(s, SymNo) || (e.arg.Not? && OddNegation(s, e.arg.arg)))
  }
}
