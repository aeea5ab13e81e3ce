/** Equality of expressions by cancellation: expr_eq, expr_eliminate_eq and expr_extract_eq,
    which call each other, and what cancelling says about the two expressions. */
module Equality {
  import opened Tristates
  import opened Exprs
  import opened Simplify

  /** Termination of the mutual recursion: sizes first, then which function it is. */
  function Rank(op: Op, e1: Expr, e2: Expr): nat {
    if e1.HasOp(op) || e2.HasOp(op) then 0 else 3
  }

  /** __expr_eliminate_eq: pair up the op-operands of e1 and e2 and replace equal pairs by the
      unit of op. The result is the new contents of the two slots. */
  function EliminatePairs(op: Op, e1: Expr, e2: Expr): (r: (Expr, Expr))
    ensures Size(r.0) <= Size(e1) && Size(r.1) <= Size(e2)
    ensures e1.HasOp(op) ==> r.0.HasOp(op)
    ensures e2.HasOp(op) ==> r.1.HasOp(op)
    decreases Size(e1) + Size(e2), Rank(op, e1, e2)
  {
    if e1.HasOp(op) then
      var (l, e2') := EliminatePairs(op, e1.left, e2);
      var (r, e2'') := EliminatePairs(op, e1.right, e2');
      (Bin(op, l, r), e2'')
    else if e2.HasOp(op) then
      var (e1', l) := EliminatePairs(op, e1, e2.left);
      var (e1'', r) := EliminatePairs(op, e1', e2.right);
      (e1'', Bin(op, l, r))
    else if e1 == e2 && e1.IsYesNo() then
      (e1, e2)
    else if !ExprEq(e1, e2) then
      (e1, e2)
    else
      SizePositive(e1);
      SizePositive(e2);
      (Sym(op.Unit()), Sym(op.Unit()))
  }

  /** expr_eliminate_eq on two non-null expressions. */
  function EliminateEq(e1: Expr, e2: Expr): (r: (Expr, Expr))
    decreases Size(e1) + Size(e2), 1
  {
    var (a1, a2) := if e1.Bin? then EliminatePairs(e1.op, e1, e2) else (e1, e2);
    var (b1, b2) := if a2.Bin? && !a1.HasOp(a2.op) then EliminatePairs(a2.op, a1, a2) else (a1, a2);
    (EliminateYn(b1), EliminateYn(b2))
  }

  /** expr_eq */
  predicate ExprEq(e1: Expr, e2: Expr)
    decreases Size(e1) + Size(e2), 2
  {
    match e1
    case Equal(_, _) => e1 == e2
    case Unequal(_, _) => e1 == e2
    case Sym(_) => e1 == e2
    case Not(a) => e2.Not? && ExprEq(a, e2.arg)
    case Bin(op, _, _) =>
      e2.HasOp(op) &&
      var (r1, r2) := EliminateEq(e1, e2);
      r1.Sym? && r1 == r2
  }

  // ---------- soundness ----------

  /** What has been cancelled from both sides: a value c with old == new op c on each side. */
  ghost predicate Cancelled(v: Valuation, op: Op, c: Tri, e1: Expr, e2: Expr, r: (Expr, Expr)) {
    && Value(v, e1) == op.Apply(Value(v, r.0), c)
    && Value(v, e2) == op.Apply(Value(v, r.1), c)
  }

  lemma ApplyInterchange(op: Op, x: Tri, c: Tri, y: Tri, d: Tri)
    ensures op.Apply(op.Apply(x, c), op.Apply(y, d)) == op.Apply(op.Apply(x, y), op.Apply(c, d))
    ensures op.Apply(op.Apply(x, c), d) == op.Apply(x, op.Apply(d, c)) == op.Apply(x, op.Apply(c, d))
  {
  }

  /** Cancelling first against one half of an expression, then against the other. */
  lemma CancelledTwice(v: Valuation, op: Op, l: Expr, l': Expr, r: Expr, r': Expr,
                       e: Expr, e': Expr, e'': Expr, c: Tri, d: Tri)
    requires Cancelled(v, op, c, l, e, (l', e')) && Cancelled(v, op, d, r, e', (r', e''))
    ensures Cancelled(v, op, op.Apply(c, d), Bin(op, l, r), e, (Bin(op, l', r'), e''))
  {
    ApplyInterchange(op, Value(v, l'), c, Value(v, r'), d);
    ApplyInterchange(op, Value(v, e''), d, Value(v, r'), c);
  }

  lemma {:induction false} EliminatePairsCancels(v: Valuation, op: Op, e1: Expr, e2: Expr) returns (c: Tri)
    requires v.WellFormed()
    ensures Cancelled(v, op, c, e1, e2, EliminatePairs(op, e1, e2))
    decreases Size(e1) + Size(e2), Rank(op, e1, e2)
  {
    if e1.HasOp(op) {
      var (l, e2') := EliminatePairs(op, e1.left, e2);
      var (r, e2'') := EliminatePairs(op, e1.right, e2');
      var c1 := EliminatePairsCancels(v, op, e1.left, e2);
      var c2 := EliminatePairsCancels(v, op, e1.right, e2');
      c := op.Apply(c1, c2);
      CancelledTwice(v, op, e1.left, l, e1.right, r, e2, e2', e2'', c1, c2);
    } else if e2.HasOp(op) {
      var (e1', l) := EliminatePairs(op, e1, e2.left);
      var (e1'', r) := EliminatePairs(op, e1', e2.right);
      var c1 := EliminatePairsCancels(v, op, e1, e2.left);
      var c2 := EliminatePairsCancels(v, op, e1', e2.right);
      c := op.Apply(c1, c2);
      CancelledTwice(v, op, e2.left, l, e2.right, r, e1, e1', e1'', c1, c2);
    } else {
      c := LeavesCancel(v, op, e1, e2);
    }
  }

  lemma {:induction false} LeavesCancel(v: Valuation, op: Op, e1: Expr, e2: Expr) returns (c: Tri)
    requires v.WellFormed() && !e1.HasOp(op) && !e2.HasOp(op)
    ensures Cancelled(v, op, c, e1, e2, EliminatePairs(op, e1, e2))
    decreases Size(e1) + Size(e2), 2, 1
  {
    c := v.tri(op.Unit());
    if !(e1 == e2 && e1.IsYesNo()) && ExprEq(e1, e2) {
      ExprEqSound(v, e1, e2);
      c := Value(v, e1);
    }
  }

  /** expr_eq only ever equates expressions of equal value. */
  lemma {:induction false} ExprEqSound(v: Valuation, e1: Expr, e2: Expr)
    requires v.WellFormed() && ExprEq(e1, e2)
    ensures Value(v, e1) == Value(v, e2)
    decreases Size(e1) + Size(e2), 2, 0
  {
    match e1
    case Not(a) => ExprEqSound(v, a, e2.arg);
    case Bin(op, _, _) =>
      var c := EliminatePairsCancels(v, op, e1, e2);
      var (r1, r2) := EliminatePairs(op, e1, e2);
      EliminateYnKeepsValue(v, r1);
      EliminateYnKeepsValue(v, r2);
    case _ =>
  }

  /** The test menu_finalize uses to find implicit submenus: once cancelling has reduced the
      second expression to y, the first one implied it, whatever the two root operators were. */
  lemma EliminatedToYesIsImplied(v: Valuation, d: Expr, b: Expr)
    requires v.WellFormed()
    requires EliminateEq(d, b).1 == Sym(SymYes)
    ensures Value(v, d) <= Value(v, b)
  {
    var (a1, a2) := if d.Bin? then EliminatePairs(d.op, d, b) else (d, b);
    var (b1, b2) := if a2.Bin? && !a1.HasOp(a2.op) then EliminatePairs(a2.op, a1, a2) else (a1, a2);
    assert EliminateYn(b2) == Sym(SymYes);
    EliminateYnKeepsValue(v, b2);
    if a2.Bin? && !a1.HasOp(a2.op) {
      CancellingReflectsOrder(v, a2.op, a1, a2);
    }
    if d.Bin? {
      CancellingReflectsOrder(v, d.op, d, b);
    }
  }

  /** Whatever holds between the remainders holds between the originals. */
  lemma CancellingReflectsOrder(v: Valuation, op: Op, e1: Expr, e2: Expr)
    requires v.WellFormed()
    ensures var (r1, r2) := EliminatePairs(op, e1, e2);
            Value(v, r1) <= Value(v, r2) ==> Value(v, e1) <= Value(v, e2)
  {
    var _ := EliminatePairsCancels(v, op, e1, e2);
  }

  // ---------- exactness ----------

  /** The shape of an expression up to the order and the grouping of && and ||: an independent
      definition of "equal modulo associativity and commutativity". */
  datatype Shape =
    | AtomShape(e: Expr)
    | NotShape(arg: Shape)
    | OpShape(op: Op, operands: multiset<Shape>)

  function Operands(op: Op, e: Expr): multiset<Shape>
    decreases e, 1
  {
    if e.HasOp(op) then Operands(op, e.left) + Operands(op, e.right) else multiset{ShapeOf(e)}
  }

  function ShapeOf(e: Expr): Shape
    decreases e, 0
  {
    match e
    case Not(a) => NotShape(ShapeOf(a))
    case Bin(op, l, r) => OpShape(op, Operands(op, l) + Operands(op, r))
    case _ => AtomShape(e)
  }

  /** No y or n is an operand of && or ||, at any depth. */
  predicate ConstantFree(e: Expr) {
    match e
    case Not(a) => ConstantFree(a)
    case Bin(_, l, r) => !l.IsYesNo() && !r.IsYesNo() && ConstantFree(l) && ConstantFree(r)
    case _ => true
  }

  /** An op-tree on which cancelling has been at work: its operands are constant-free,
      or the unit left where something was cancelled. */
  predicate Cancelling(op: Op, e: Expr) {
    if e.HasOp(op) then Cancelling(op, e.left) && Cancelling(op, e.right)
    else e == Sym(op.Unit()) || (ConstantFree(e) && !e.IsYesNo())
  }

  /** The operands not cancelled yet. */
  function Live(op: Op, e: Expr): multiset<Shape> {
    if e.HasOp(op) then Live(op, e.left) + Live(op, e.right)
    else if e == Sym(op.Unit()) then multiset{}
    else multiset{ShapeOf(e)}
  }

  lemma {:induction false} ConstantFreeIsCancelling(op: Op, e: Expr)
    requires ConstantFree(e) && !e.IsYesNo()
    ensures Cancelling(op, e) && Live(op, e) == Operands(op, e)
  {
    if e.HasOp(op) {
      ConstantFreeIsCancelling(op, e.left);
      ConstantFreeIsCancelling(op, e.right);
    }
  }

  /** `common` went from both sides, and the remainders r1 and r2 share nothing. */
  ghost predicate Split<T(!new)>(m1: multiset<T>, m2: multiset<T>, r1: multiset<T>, r2: multiset<T>,
                                     common: multiset<T>) {
    m1 == r1 + common && m2 == r2 + common && r1 !! r2
  }

  ghost predicate CommonRemoved(op: Op, common: multiset<Shape>, e1: Expr, e2: Expr, r1: Expr, r2: Expr) {
    && Cancelling(op, r1) && Cancelling(op, r2)
    && Split(Live(op, e1), Live(op, e2), Live(op, r1), Live(op, r2), common)
  }

  lemma LiveOfBin(op: Op, l: Expr, r: Expr)
    ensures Live(op, Bin(op, l, r)) == Live(op, l) + Live(op, r)
    ensures Cancelling(op, Bin(op, l, r)) == (Cancelling(op, l) && Cancelling(op, r))
  {
  }

  lemma CommonRemovedTwice(op: Op, l: Expr, l': Expr, r: Expr, r': Expr, e: Expr, e': Expr, e'': Expr,
                           c: multiset<Shape>, d: multiset<Shape>)
    requires CommonRemoved(op, c, l, e, l', e') && CommonRemoved(op, d, r, e', r', e'')
    ensures CommonRemoved(op, c + d, Bin(op, l, r), e, Bin(op, l', r'), e'')
  {
    LiveOfBin(op, l, r);
    LiveOfBin(op, l', r');
    TwoSteps(Live(op, l), Live(op, l'), Live(op, r), Live(op, r'), Live(op, e), Live(op, e'), Live(op, e''), c, d);
  }

  lemma TwoSteps<T(!new)>(l: multiset<T>, l': multiset<T>, r: multiset<T>, r': multiset<T>,
                    e: multiset<T>, e': multiset<T>, e'': multiset<T>, c: multiset<T>, d: multiset<T>)
    requires Split(l, e, l', e', c) && Split(r, e', r', e'', d)
    ensures Split(l + r, e, l' + r', e'', c + d)
  {
    forall s ensures !(s in l' + r' && s in e'') {
      assert e'[s] == e''[s] + d[s];
      assert !(s in l' && s in e');
    }
  }

  lemma CommonRemovedSwap(op: Op, c: multiset<Shape>, e1: Expr, e2: Expr, r1: Expr, r2: Expr)
    requires CommonRemoved(op, c, e1, e2, r1, r2)
    ensures CommonRemoved(op, c, e2, e1, r2, r1)
  {
  }

  lemma {:induction false} EliminatePairsExact(op: Op, e1: Expr, e2: Expr) returns (common: multiset<Shape>)
    requires Cancelling(op, e1) && Cancelling(op, e2)
    ensures CommonRemoved(op, common, e1, e2, EliminatePairs(op, e1, e2).0, EliminatePairs(op, e1, e2).1)
    decreases Size(e1) + Size(e2), Rank(op, e1, e2)
  {
    if e1.HasOp(op) {
      var (l, e2') := EliminatePairs(op, e1.left, e2);
      var (r, e2'') := EliminatePairs(op, e1.right, e2');
      var c1 := EliminatePairsExact(op, e1.left, e2);
      var c2 := EliminatePairsExact(op, e1.right, e2');
      common := c1 + c2;
      CommonRemovedTwice(op, e1.left, l, e1.right, r, e2, e2', e2'', c1, c2);
    } else if e2.HasOp(op) {
      var (e1', l) := EliminatePairs(op, e1, e2.left);
      var (e1'', r) := EliminatePairs(op, e1', e2.right);
      var c1 := EliminatePairsExact(op, e1, e2.left);
      var c2 := EliminatePairsExact(op, e1', e2.right);
      common := c1 + c2;
      CommonRemovedSwap(op, c1, e1, e2.left, e1', l);
      CommonRemovedSwap(op, c2, e1', e2.right, e1'', r);
      CommonRemovedTwice(op, e2.left, l, e2.right, r, e1, e1', e1'', c1, c2);
      CommonRemovedSwap(op, common, e2, e1, Bin(op, l, r), e1'');
    } else {
      common := LeavesExact(op, e1, e2);
    }
  }

  lemma {:induction false} LeavesExact(op: Op, e1: Expr, e2: Expr) returns (common: multiset<Shape>)
    requires Cancelling(op, e1) && Cancelling(op, e2) && !e1.HasOp(op) && !e2.HasOp(op)
    ensures CommonRemoved(op, common, e1, e2, EliminatePairs(op, e1, e2).0, EliminatePairs(op, e1, e2).1)
    decreases Size(e1) + Size(e2), 2, 1
  {
    common := multiset{};
    if e1 == Sym(op.Unit()) || e2 == Sym(op.Unit()) {
      assert e1 != e2 ==> !ExprEq(e1, e2);
    } else {
      ExprEqExact(e1, e2);
      if ExprEq(e1, e2) {
        common := multiset{ShapeOf(e1)};
      }
    }
  }

  /** A cancelled op-tree reduces to its unit exactly when every operand is gone, and to
      another symbol exactly when that symbol is the one operand left. */
  lemma {:induction false} ReducedByYn(op: Op, e: Expr)
    requires Cancelling(op, e)
    ensures var r := EliminateYn(e);
            && (r == Sym(op.Unit()) <==> Live(op, e) == multiset{})
            && r != Sym(op.Zero())
            && (r.Sym? && r != Sym(op.Unit()) ==> Live(op, e) == multiset{AtomShape(r)})
  {
    if e.HasOp(op) {
      ReducedByYn(op, e.left);
      ReducedByYn(op, e.right);
    } else if e != Sym(op.Unit()) {
      ConstantFreeIsStable(e);
      assert ShapeOf(e) in Live(op, e);
    }
  }

  lemma {:induction false} ConstantFreeIsStable(e: Expr)
    requires ConstantFree(e)
    ensures EliminateYn(e) == e
  {
    match e
    case Bin(_, l, r) =>
      ConstantFreeIsStable(l);
      ConstantFreeIsStable(r);
    case _ =>
  }

  /** On expressions without y and n below && and ||, expr_eq decides equality up to
      associativity and commutativity. */
  lemma {:induction false} ExprEqExact(e1: Expr, e2: Expr)
    requires ConstantFree(e1) && ConstantFree(e2)
    ensures ExprEq(e1, e2) <==> ShapeOf(e1) == ShapeOf(e2)
    decreases Size(e1) + Size(e2), 2, 0
  {
    match e1
    case Not(a) =>
      if e2.Not? {
        ExprEqExact(a, e2.arg);
      }
    case Bin(op, l, r) =>
      if e2.HasOp(op) {
        OperatorsExact(op, e1, e2);
      }
    case _ =>
  }

  lemma {:induction false} OperatorsExact(op: Op, e1: Expr, e2: Expr)
    requires ConstantFree(e1) && ConstantFree(e2) && e1.HasOp(op) && e2.HasOp(op)
    ensures ExprEq(e1, e2) <==> Operands(op, e1) == Operands(op, e2)
    decreases Size(e1) + Size(e2), 1
  {
    ConstantFreeIsCancelling(op, e1);
    ConstantFreeIsCancelling(op, e2);
    var (r1, r2) := EliminatePairs(op, e1, e2);
    var c := EliminatePairsExact(op, e1, e2);
    BothGoneOrNothingShared(Live(op, e1), Live(op, e2), Live(op, r1), Live(op, r2), c);
    ReducedByYn(op, r1);
    ReducedByYn(op, r2);
    assert EliminateEq(e1, e2) == (EliminateYn(r1), EliminateYn(r2));
  }

  lemma BothGoneOrNothingShared(m1: multiset<Shape>, m2: multiset<Shape>,
                                r1: multiset<Shape>, r2: multiset<Shape>, c: multiset<Shape>)
    requires Split(m1, m2, r1, r2, c)
    ensures m1 == m2 <==> r1 == multiset{} && r2 == multiset{}
    ensures forall s :: !(r1 == multiset{s} && r2 == multiset{s})
  {
    if m1 == m2 {
      forall s ensures r1[s] == 0 && r2[s] == 0 {
        assert m1[s] == r1[s] + c[s] && m2[s] == r2[s] + c[s];
      }
      assert r1 == multiset{} && r2 == multiset{};
    }
    forall s ensures !(r1 == multiset{s} && r2 == multiset{s}) {
      assert s in multiset{s};
    }
  }

  /** With a constant below &&, expr_eq still equates only equal values, but it can see more
      than associativity and commutativity: n && a and n && b both reduce to n. */
  lemma ConstantsNeedNotMatch(a: Symbol, b: Symbol)
    requires !a.IsFixed() && !b.IsFixed() && a != b
    ensures var e1, e2 := Bin(AndOp, Sym(SymNo), Sym(a)), Bin(AndOp, Sym(SymNo), Sym(b));
            ExprEq(e1, e2) && ShapeOf(e1) != ShapeOf(e2)
  {
    var e1, e2 := Bin(AndOp, Sym(SymNo), Sym(a)), Bin(AndOp, Sym(SymNo), Sym(b));
    assert EliminatePairs(AndOp, Sym(SymNo), Sym(SymNo)) == (Sym(SymNo), Sym(SymNo));
    assert EliminatePairs(AndOp, Sym(SymNo), Sym(b)) == (Sym(SymNo), Sym(b));
    assert EliminatePairs(AndOp, Sym(SymNo), e2) == (Sym(SymNo), e2);
    assert EliminatePairs(AndOp, Sym(a), Sym(SymNo)) == (Sym(a), Sym(SymNo));
    assert EliminatePairs(AndOp, Sym(a), Sym(b)) == (Sym(a), Sym(b));
    assert EliminatePairs(AndOp, Sym(a), e2) == (Sym(a), e2);
    assert EliminatePairs(AndOp, e1, e2) == (e1, e2);
    assert EliminateYn(Sym(SymNo)) == Sym(SymNo);
    assert EliminateYn(e1) == EliminateYn(e2) == Sym(SymNo);
    assert EliminateEq(e1, e2) == (Sym(SymNo), Sym(SymNo));
    assert Operands(AndOp, Sym(a)) == multiset{AtomShape(Sym(a))};
    assert AtomShape(Sym(a)) in Operands(AndOp, Sym(SymNo)) + Operands(AndOp, Sym(a));
    assert AtomShape(Sym(a)) !in Operands(AndOp, Sym(SymNo)) + Operands(AndOp, Sym(b));
  }

  // ---------- when the second expression reduces to y ----------

  /** Cancelling against one operand b: it stays, with nothing changed, or it is gone. */
  lemma {:induction false} SingleOperand(op: Op, e: Expr, b: Expr)
    requires !b.HasOp(op)
    ensures var r := EliminatePairs(op, e, b); r == (e, b) || r.1 == Sym(op.Unit())
    decreases Size(e)
  {
    if e.HasOp(op) {
      var (l, b') := EliminatePairs(op, e.left, b);
      SizePositive(e.left);
      SizePositive(e.right);
      SingleOperand(op, e.left, b);
      SingleOperand(op, e.right, b');
    }
  }

  lemma {:induction false} StaysCancelling(op: Op, e1: Expr, e2: Expr)
    requires Cancelling(op, e2)
    ensures Cancelling(op, EliminatePairs(op, e1, e2).1)
    decreases Size(e1) + Size(e2), Rank(op, e1, e2)
  {
    if e1.HasOp(op) {
      var (l, e2') := EliminatePairs(op, e1.left, e2);
      SizePositive(e1.left);
      SizePositive(e1.right);
      StaysCancelling(op, e1.left, e2);
      StaysCancelling(op, e1.right, e2');
    } else if e2.HasOp(op) {
      var (e1', l) := EliminatePairs(op, e1, e2.left);
      SizePositive(e2.left);
      SizePositive(e2.right);
      StaysCancelling(op, e1, e2.left);
      StaysCancelling(op, e1', e2.right);
    }
  }

  lemma {:induction false} OperandsExist(op: Op, e: Expr)
    ensures |Operands(op, e)| >= 1 && (e.HasOp(op) ==> |Operands(op, e)| >= 2)
    decreases e
  {
    if e.HasOp(op) {
      OperandsExist(op, e.left);
      OperandsExist(op, e.right);
    }
  }

  lemma NothingLeft(m1: multiset<Shape>, m2: multiset<Shape>, r1: multiset<Shape>, r2: multiset<Shape>,
                    c: multiset<Shape>)
    requires Split(m1, m2, r1, r2, c)
    ensures r2 == multiset{} <==> m2 <= m1
  {
    if m2 <= m1 {
      forall s ensures r2[s] == 0 {
        assert m1[s] == r1[s] + c[s] && m2[s] == r2[s] + c[s];
      }
    }
  }

  /** Cancelling below && leaves nothing of b, if and only if all its operands are among those of d. */
  lemma ConjunctionCancels(d: Expr, b: Expr)
    requires ConstantFree(d) && ConstantFree(b) && !d.IsYesNo() && !b.IsYesNo()
    ensures var b' := EliminatePairs(AndOp, d, b).1;
            EliminateYn(b') == Sym(SymYes) <==> Operands(AndOp, b) <= Operands(AndOp, d)
  {
    ConstantFreeIsCancelling(AndOp, d);
    ConstantFreeIsCancelling(AndOp, b);
    var (r1, r2) := EliminatePairs(AndOp, d, b);
    var c := EliminatePairsExact(AndOp, d, b);
    NothingLeft(Live(AndOp, d), Live(AndOp, b), Live(AndOp, r1), Live(AndOp, r2), c);
    ReducedByYn(AndOp, r2);
  }

  /** Cancelling below || never leaves y. */
  lemma DisjunctionLeavesNoYes(d: Expr, b: Expr)
    requires ConstantFree(b) && !b.IsYesNo()
    ensures EliminateYn(EliminatePairs(OrOp, d, b).1) != Sym(SymYes)
  {
    ConstantFreeIsCancelling(OrOp, b);
    StaysCancelling(OrOp, d, b);
    ReducedByYn(OrOp, EliminatePairs(OrOp, d, b).1);
  }

  /** A conjunction is never contained in an operand of its own. */
  lemma NoConjunctionInOne(d: Expr, b: Expr)
    requires !d.HasOp(AndOp) && b.HasOp(AndOp)
    ensures !(Operands(AndOp, b) <= Operands(AndOp, d))
  {
    OperandsExist(AndOp, b);
    if Operands(AndOp, b) <= Operands(AndOp, d) {
      PartIsNoLarger(Operands(AndOp, b), Operands(AndOp, d));
    }
  }

  lemma PartIsNoLarger(part: multiset<Shape>, whole: multiset<Shape>)
    requires part <= whole
    ensures |part| <= |whole|
  {
    assert whole == part + (whole - part);
  }

  /** On expressions without y and n the second one reduces to y, if and only if the first is a conjunction and has all
      the operands of the second. */
  lemma EliminatedToYesExactly(d: Expr, b: Expr)
    requires ConstantFree(d) && ConstantFree(b) && !d.IsYesNo() && !b.IsYesNo()
    ensures EliminateEq(d, b).1 == Sym(SymYes) <==> d.HasOp(AndOp) && Operands(AndOp, b) <= Operands(AndOp, d)
  {
    if d.HasOp(AndOp) {
      ConjunctionEliminates(d, b);
    } else if d.HasOp(OrOp) {
      DisjunctionDoesNot(d, b);
    } else {
      OneDoesNot(d, b);
    }
  }

  lemma ConjunctionEliminates(d: Expr, b: Expr)
    requires ConstantFree(d) && ConstantFree(b) && !d.IsYesNo() && !b.IsYesNo() && d.HasOp(AndOp)
    ensures EliminateEq(d, b).1 == Sym(SymYes) <==> Operands(AndOp, b) <= Operands(AndOp, d)
  {
    ConjunctionCancels(d, b);
    if !b.HasOp(AndOp) {
      SingleOperand(AndOp, d, b);
      if b.HasOp(OrOp) && EliminatePairs(AndOp, d, b) == (d, b) {
        DisjunctionLeavesNoYes(d, b);
        ConstantFreeIsStable(b);
      }
    }
  }

  lemma DisjunctionDoesNot(d: Expr, b: Expr)
    requires ConstantFree(d) && ConstantFree(b) && !d.IsYesNo() && !b.IsYesNo() && d.HasOp(OrOp)
    ensures EliminateEq(d, b).1 != Sym(SymYes)
  {
    DisjunctionLeavesNoYes(d, b);
    if !b.HasOp(OrOp) {
      SingleOperand(OrOp, d, b);
      if b.HasOp(AndOp) {
        ConjunctionCancels(d, b);
        NoConjunctionInOne(d, b);
      }
    }
  }

  lemma OneDoesNot(d: Expr, b: Expr)
    requires ConstantFree(d) && ConstantFree(b) && !d.IsYesNo() && !b.IsYesNo() && !d.Bin?
    ensures EliminateEq(d, b).1 != Sym(SymYes)
  {
    ConstantFreeIsStable(b);
    if b.HasOp(OrOp) {
      DisjunctionLeavesNoYes(d, b);
    } else if b.HasOp(AndOp) {
      ConjunctionCancels(d, b);
      NoConjunctionInOne(d, b);
    }
  }

  // ---------- expr_extract_eq ----------

  /** expr_extract_eq: like EliminatePairs, but what is cancelled is collected in ep. */
  function ExtractEq(op: Op, ep: Option<Expr>, e1: Expr, e2: Expr): (r: (Option<Expr>, Expr, Expr))
    ensures Size(r.1) <= Size(e1) && Size(r.2) <= Size(e2)
    ensures ep.Some? ==> r.0.Some?
    ensures r.0 == None ==> r.1 == e1 && r.2 == e2
    decreases Size(e1) + Size(e2)
  {
    if e1.HasOp(op) then
      var (ep', l, e2') := ExtractEq(op, ep, e1.left, e2);
      var (ep'', r, e2'') := ExtractEq(op, ep', e1.right, e2');
      (ep'', Bin(op, l, r), e2'')
    else if e2.HasOp(op) then
      var (ep', e1', l) := ExtractEq(op, ep, e1, e2.left);
      var (ep'', e1'', r) := ExtractEq(op, ep', e1', e2.right);
      (ep'', e1'', Bin(op, l, r))
    else if ExprEq(e1, e2) then
      SizePositive(e1);
      SizePositive(e2);
      (Some(if ep.Some? then Bin(op, ep.value, e1) else e1), Sym(op.Unit()), Sym(op.Unit()))
    else
      (ep, e1, e2)
  }

  /** expr_extract_eq_and and expr_extract_eq_or */
  function ExtractEqTop(op: Op, e1: Expr, e2: Expr): (Option<Expr>, Expr, Expr) {
    var (ep, r1, r2) := ExtractEq(op, None, e1, e2);
    if ep.Some? then (ep, EliminateYn(r1), EliminateYn(r2)) else (ep, r1, r2)
  }

  function Extracted(v: Valuation, op: Op, ep: Option<Expr>): Tri {
    if ep.Some? then Value(v, ep.value) else v.tri(op.Unit())
  }

  ghost predicate ExtractedTo(v: Valuation, op: Op, c: Tri, ep: Option<Expr>, ep': Option<Expr>) {
    Extracted(v, op, ep') == op.Apply(Extracted(v, op, ep), c)
  }

  lemma {:induction false} ExtractEqCancels(v: Valuation, op: Op, ep: Option<Expr>, e1: Expr, e2: Expr)
    returns (c: Tri)
    requires v.WellFormed()
    ensures var (ep', r1, r2) := ExtractEq(op, ep, e1, e2);
            Cancelled(v, op, c, e1, e2, (r1, r2)) && ExtractedTo(v, op, c, ep, ep')
    decreases Size(e1) + Size(e2)
  {
    if e1.HasOp(op) {
      var (ep', l, e2') := ExtractEq(op, ep, e1.left, e2);
      var (ep'', r, e2'') := ExtractEq(op, ep', e1.right, e2');
      var c1 := ExtractEqCancels(v, op, ep, e1.left, e2);
      var c2 := ExtractEqCancels(v, op, ep', e1.right, e2');
      c := op.Apply(c1, c2);
      CancelledTwice(v, op, e1.left, l, e1.right, r, e2, e2', e2'', c1, c2);
      ApplyInterchange(op, Extracted(v, op, ep), c1, c2, c2);
    } else if e2.HasOp(op) {
      var (ep', e1', l) := ExtractEq(op, ep, e1, e2.left);
      var (ep'', e1'', r) := ExtractEq(op, ep', e1', e2.right);
      var c1 := ExtractEqCancels(v, op, ep, e1, e2.left);
      var c2 := ExtractEqCancels(v, op, ep', e1', e2.right);
      c := op.Apply(c1, c2);
      CancelledTwice(v, op, e2.left, l, e2.right, r, e1, e1', e1'', c1, c2);
      ApplyInterchange(op, Extracted(v, op, ep), c1, c2, c2);
    } else {
      c := ExtractLeaves(v, op, ep, e1, e2);
    }
  }

  lemma ExtractLeaves(v: Valuation, op: Op, ep: Option<Expr>, e1: Expr, e2: Expr) returns (c: Tri)
    requires v.WellFormed() && !e1.HasOp(op) && !e2.HasOp(op)
    ensures var (ep', r1, r2) := ExtractEq(op, ep, e1, e2);
            Cancelled(v, op, c, e1, e2, (r1, r2)) && ExtractedTo(v, op, c, ep, ep')
  {
    if ExprEq(e1, e2) {
      ExprEqSound(v, e1, e2);
      c := Value(v, e1);
    } else {
      c := v.tri(op.Unit());
    }
  }

  /** What the two expressions have in common times what is left of each is the original. */
  lemma ExtractEqTopSplits(v: Valuation, op: Op, e1: Expr, e2: Expr)
    requires v.WellFormed()
    ensures var (ep, r1, r2) := ExtractEqTop(op, e1, e2);
            && Value(v, e1) == op.Apply(Value(v, r1), Extracted(v, op, ep))
            && Value(v, e2) == op.Apply(Value(v, r2), Extracted(v, op, ep))
  {
    var c := ExtractEqCancels(v, op, None, e1, e2);
    var (ep, r1, r2) := ExtractEq(op, None, e1, e2);
    EliminateYnKeepsValue(v, r1);
    EliminateYnKeepsValue(v, r2);
  }

  /** On cancelling trees expr_extract_eq leaves what expr_eliminate_eq leaves. */
  lemma {:induction false} ExtractingIsCancelling(op: Op, ep: Option<Expr>, e1: Expr, e2: Expr)
    requires Cancelling(op, e1) && Cancelling(op, e2)
    ensures var r := ExtractEq(op, ep, e1, e2);
            (r.1, r.2) == EliminatePairs(op, e1, e2) && Cancelling(op, r.1) && Cancelling(op, r.2)
    decreases Size(e1) + Size(e2)
  {
    hide ExprEq;
    if e1.HasOp(op) {
      var (ep', l, e2') := ExtractEq(op, ep, e1.left, e2);
      SizePositive(e1.left);
      SizePositive(e1.right);
      ExtractingIsCancelling(op, ep, e1.left, e2);
      ExtractingIsCancelling(op, ep', e1.right, e2');
    } else if e2.HasOp(op) {
      var (ep', e1', l) := ExtractEq(op, ep, e1, e2.left);
      SizePositive(e2.left);
      SizePositive(e2.right);
      ExtractingIsCancelling(op, ep, e1, e2.left);
      ExtractingIsCancelling(op, ep', e1', e2.right);
    }
  }

  lemma CancelsFirst(op: Op, e1: Expr, e2: Expr)
    requires ConstantFree(e1) && ConstantFree(e2) && !e1.IsYesNo() && !e2.IsYesNo()
    ensures Cancelling(op, e1) && Cancelling(op, e2)
    ensures var r := EliminatePairs(op, e1, e2).0;
            Cancelling(op, r) && (Live(op, r) == multiset{} <==> Operands(op, e1) <= Operands(op, e2))
  {
    ConstantFreeIsCancelling(op, e1);
    ConstantFreeIsCancelling(op, e2);
    hide EliminatePairs, ConstantFree, Cancelling, Live, Operands;
    var (r1, r2) := EliminatePairs(op, e1, e2);
    var c := EliminatePairsExact(op, e1, e2);
    CommonRemovedSwap(op, c, e1, e2, r1, r2);
    NothingLeft(Live(op, e2), Live(op, e1), Live(op, r2), Live(op, r1), c);
  }

  /** On expressions without y and n nothing of the first is left, if and only if all its operands are among those of
      the second. */
  lemma ExtractedExactly(op: Op, e1: Expr, e2: Expr)
    requires ConstantFree(e1) && ConstantFree(e2) && !e1.IsYesNo() && !e2.IsYesNo()
    ensures ExtractEqTop(op, e1, e2).1 == Sym(op.Unit()) <==> Operands(op, e1) <= Operands(op, e2)
  {
    hide ExtractEq, EliminatePairs, EliminateYn, ExprEq, ConstantFree, Cancelling, Live, Operands;
    CancelsFirst(op, e1, e2);
    ExtractingIsCancelling(op, None, e1, e2);
    ReducedByYn(op, EliminatePairs(op, e1, e2).0);
    ConstantFreeIsStable(e1);
  }
}
