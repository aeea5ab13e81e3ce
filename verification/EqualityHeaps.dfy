/** expr_eq and expr_eliminate_eq of support/kconfig/expr.c on nodes: cancelling assigns to the slots of
    two expressions in turn, and comparing works on copies. A slot that is passed by reference is passed
    here as its contents, and its new contents are returned. */
module EqualityHeaps {
  import opened Exprs
  import opened Simplify
  import opened Equality
  import opened ExprHeaps

  /** Two expressions that share no nodes. */
  ghost predicate HoldBoth(t1: Tree, t2: Tree)
    reads Nodes(t1), Nodes(t2)
  {
    Holds(t1) && Holds(t2) && Distinct(t1) && Distinct(t2) && Nodes(t1) !! Nodes(t2)
  }

  // the cases of the three functions

  lemma PairsLeft(op: Op, e1: Expr, e2: Expr)
    requires e1.HasOp(op)
    ensures var (l, f) := EliminatePairs(op, e1.left, e2);
            var (r, g) := EliminatePairs(op, e1.right, f);
            EliminatePairs(op, e1, e2) == (Bin(op, l, r), g) && Size(f) <= Size(e2)
    ensures Size(e1.left) < Size(e1) && Size(e1.right) < Size(e1)
  {
  }

  lemma PairsRight(op: Op, e1: Expr, e2: Expr)
    requires !e1.HasOp(op) && e2.HasOp(op)
    ensures var (f, l) := EliminatePairs(op, e1, e2.left);
            var (g, r) := EliminatePairs(op, f, e2.right);
            EliminatePairs(op, e1, e2) == (g, Bin(op, l, r)) && Size(f) <= Size(e1)
    ensures Size(e2.left) < Size(e2) && Size(e2.right) < Size(e2)
  {
  }

  lemma PairsLeaf(op: Op, e1: Expr, e2: Expr)
    requires !e1.HasOp(op) && !e2.HasOp(op)
    ensures EliminatePairs(op, e1, e2)
         == if (e1 == e2 && e1.IsYesNo()) || !ExprEq(e1, e2) then (e1, e2) else (Sym(op.Unit()), Sym(op.Unit()))
  {
  }

  /** __expr_eliminate_eq */
  method EliminatePairsInPlace(op: Op, e1: Node, e2: Node, ghost t1: Tree, ghost t2: Tree)
    returns (r1: Node, r2: Node, ghost t1': Tree, ghost t2': Tree)
    requires HoldBoth(t1, t2) && t1.node == e1 && t2.node == e2
    modifies Nodes(t1), Nodes(t2)
    ensures HoldBoth(t1', t2') && t1'.node == r1 && t2'.node == r2
    ensures forall n :: n in Nodes(t1') ==> n in Nodes(t1) || fresh(n)
    ensures forall n :: n in Nodes(t2') ==> n in Nodes(t2) || fresh(n)
    ensures (Abs(t1'), Abs(t2')) == EliminatePairs(op, Abs(t1), Abs(t2))
    decreases Size(Abs(t1)) + Size(Abs(t2)), Rank(op, Abs(t1), Abs(t2)), 1
  {
    if e1.kind == KindOf(op) {
      r1, r2, t1', t2' := PairsInLeft(op, e1, e2, t1, t2);
    } else if e2.kind == KindOf(op) {
      r1, r2, t1', t2' := PairsInRight(op, e1, e2, t1, t2);
    } else {
      r1, r2, t1', t2' := PairOfLeaves(op, e1, e2, t1, t2);
    }
  }

  method PairsInLeft(op: Op, e1: Node, e2: Node, ghost t1: Tree, ghost t2: Tree)
    returns (r1: Node, r2: Node, ghost t1': Tree, ghost t2': Tree)
    requires HoldBoth(t1, t2) && t1.node == e1 && t2.node == e2 && e1.kind == KindOf(op)
    modifies Nodes(t1), Nodes(t2)
    ensures HoldBoth(t1', t2') && t1'.node == r1 && t2'.node == r2
    ensures forall n :: n in Nodes(t1') ==> n in Nodes(t1) || fresh(n)
    ensures forall n :: n in Nodes(t2') ==> n in Nodes(t2) || fresh(n)
    ensures (Abs(t1'), Abs(t2')) == EliminatePairs(op, Abs(t1), Abs(t2))
    decreases Size(Abs(t1)) + Size(Abs(t2)), 0, 0
  {
    hide EliminatePairs, Size, Holds, Distinct, Nodes;
    KindTells(op, t1);
    Opened(t1);
    PairsLeft(op, Abs(t1), Abs(t2));
    AllExist(t1.right);
    var l, f, tl, tf := EliminatePairsInPlace(op, e1.left, e2, t1.left, t2);
    AllExist(tl);
    assert e1 !in Nodes(tl) && e1 !in Nodes(tf) && Nodes(t1.right) !! Nodes(tl) && Nodes(t1.right) !! Nodes(tf);
    var r, g, tr, tg := EliminatePairsInPlace(op, e1.right, f, t1.right, tf);
    assert Holds(tl) && e1 !in Nodes(tr) && e1 !in Nodes(tg) && Nodes(tr) !! Nodes(tl) && Nodes(tg) !! Nodes(tl);
    e1.left, e1.right := l, r;
    Closed(e1, op, tl, tr);
    r1, r2, t1', t2' := e1, g, TBin(e1, op, tl, tr), tg;
  }

  method PairsInRight(op: Op, e1: Node, e2: Node, ghost t1: Tree, ghost t2: Tree)
    returns (r1: Node, r2: Node, ghost t1': Tree, ghost t2': Tree)
    requires HoldBoth(t1, t2) && t1.node == e1 && t2.node == e2 && e1.kind != KindOf(op) && e2.kind == KindOf(op)
    modifies Nodes(t1), Nodes(t2)
    ensures HoldBoth(t1', t2') && t1'.node == r1 && t2'.node == r2
    ensures forall n :: n in Nodes(t1') ==> n in Nodes(t1) || fresh(n)
    ensures forall n :: n in Nodes(t2') ==> n in Nodes(t2) || fresh(n)
    ensures (Abs(t1'), Abs(t2')) == EliminatePairs(op, Abs(t1), Abs(t2))
    decreases Size(Abs(t1)) + Size(Abs(t2)), 0, 0
  {
    hide EliminatePairs, Size, Holds, Distinct, Nodes;
    KindTells(op, t1);
    KindTells(op, t2);
    Opened(t2);
    PairsRight(op, Abs(t1), Abs(t2));
    AllExist(t2.right);
    var f, l, tf, tl := EliminatePairsInPlace(op, e1, e2.left, t1, t2.left);
    AllExist(tl);
    assert e2 !in Nodes(tl) && e2 !in Nodes(tf) && Nodes(t2.right) !! Nodes(tl) && Nodes(t2.right) !! Nodes(tf);
    var g, r, tg, tr := EliminatePairsInPlace(op, f, e2.right, tf, t2.right);
    assert Holds(tl) && e2 !in Nodes(tr) && e2 !in Nodes(tg) && Nodes(tr) !! Nodes(tl) && Nodes(tg) !! Nodes(tl);
    e2.left, e2.right := l, r;
    Closed(e2, op, tl, tr);
    r1, r2, t1', t2' := g, e2, tg, TBin(e2, op, tl, tr);
  }

  lemma KindTells(op: Op, t: Tree)
    requires Holds(t)
    ensures t.node.kind == KindOf(op) <==> Abs(t).HasOp(op)
    ensures t.node.kind == KindOf(op) ==> t.TBin? && t.op == op
  {
  }

  method PairOfLeaves(op: Op, e1: Node, e2: Node, ghost t1: Tree, ghost t2: Tree)
    returns (r1: Node, r2: Node, ghost t1': Tree, ghost t2': Tree)
    requires HoldBoth(t1, t2) && t1.node == e1 && t2.node == e2 && e1.kind != KindOf(op) && e2.kind != KindOf(op)
    ensures HoldBoth(t1', t2') && t1'.node == r1 && t2'.node == r2
    ensures forall n :: n in Nodes(t1') ==> n in Nodes(t1) || fresh(n)
    ensures forall n :: n in Nodes(t2') ==> n in Nodes(t2) || fresh(n)
    ensures (Abs(t1'), Abs(t2')) == EliminatePairs(op, Abs(t1), Abs(t2))
    decreases Size(Abs(t1)) + Size(Abs(t2)), 3, 0
  {
    hide EliminatePairs, Size, ExprEq;
    KindTells(op, t1);
    KindTells(op, t2);
    PairsLeaf(op, Abs(t1), Abs(t2));
    AllExist(t1);
    AllExist(t2);
    r1, r2, t1', t2' := e1, e2, t1, t2;
    if e1.kind == KSym && e2.kind == KSym && e1.lsym == e2.lsym && (e1.lsym == SymYes || e1.lsym == SymNo) {
      return;
    }
    var equal := ExprEqOnCopies(e1, e2, t1, t2);
    if !equal {
      return;
    }
    var unit := if op.OrOp? then SymNo else SymYes;
    r1 := new Node(KSym, null, null, unit, SymNo);
    r2 := new Node(KSym, null, null, unit, SymNo);
    t1', t2' := TSym(r1, unit), TSym(r2, unit);
  }

  /** expr_eliminate_eq */
  method EliminateEqInPlace(e1: Node, e2: Node, ghost t1: Tree, ghost t2: Tree)
    returns (r1: Node, r2: Node, ghost t1': Tree, ghost t2': Tree)
    requires HoldBoth(t1, t2) && t1.node == e1 && t2.node == e2
    modifies Nodes(t1), Nodes(t2)
    ensures HoldBoth(t1', t2') && t1'.node == r1 && t2'.node == r2
    ensures forall n :: n in Nodes(t1') ==> n in Nodes(t1) || fresh(n)
    ensures forall n :: n in Nodes(t2') ==> n in Nodes(t2) || fresh(n)
    ensures (Abs(t1'), Abs(t2')) == EliminateEq(Abs(t1), Abs(t2))
    decreases Size(Abs(t1)) + Size(Abs(t2)), 1
  {
    hide EliminatePairs, Size, Holds, Distinct, Nodes, EliminateYn;
    EqualityCase(t1);
    EliminatesEq(Abs(t1), Abs(t2));
    r1, r2, t1', t2' := e1, e2, t1, t2;
    if e1.kind == KAnd || e1.kind == KOr {
      r1, r2, t1', t2' := EliminatePairsInPlace(if e1.kind == KAnd then AndOp else OrOp, e1, e2, t1, t2);
    }
    EqualityCase(t1');
    EqualityCase(t2');
    if r1.kind != r2.kind && (r2.kind == KAnd || r2.kind == KOr) {
      r1, r2, t1', t2' := EliminatePairsInPlace(if r2.kind == KAnd then AndOp else OrOp, r1, r2, t1', t2');
    }
    t1', t2' := EliminateYnOfBoth(r1, r2, t1', t2');
  }

  method EliminateYnOfBoth(e1: Node, e2: Node, ghost t1: Tree, ghost t2: Tree)
    returns (ghost t1': Tree, ghost t2': Tree)
    requires HoldBoth(t1, t2) && t1.node == e1 && t2.node == e2
    modifies Nodes(t1), Nodes(t2)
    ensures HoldBoth(t1', t2') && t1'.node == e1 && t2'.node == e2 && Nodes(t1') <= Nodes(t1) && Nodes(t2') <= Nodes(t2)
    ensures Abs(t1') == EliminateYn(Abs(t1)) && Abs(t2') == EliminateYn(Abs(t2))
  {
    hide Holds, Distinct, Nodes, EliminateYn;
    AllExist(t1);
    AllExist(t2);
    t1' := EliminateYnInPlace(e1, t1);
    t2' := EliminateYnInPlace(e2, t2);
  }

  lemma EqualityCase(t: Tree)
    requires Holds(t)
    ensures Abs(t).Bin? <==> t.node.kind == KAnd || t.node.kind == KOr
    ensures Abs(t).Bin? ==> t.node.kind == KindOf(Abs(t).op) && Abs(t).op == if t.node.kind == KAnd then AndOp else OrOp
  {
  }

  lemma EliminatesEq(e1: Expr, e2: Expr)
    ensures var (a1, a2) := if e1.Bin? then EliminatePairs(e1.op, e1, e2) else (e1, e2);
            var (b1, b2) := if a2.Bin? && !a1.HasOp(a2.op) then EliminatePairs(a2.op, a1, a2) else (a1, a2);
            EliminateEq(e1, e2) == (EliminateYn(b1), EliminateYn(b2))
            && Size(a1) <= Size(e1) && Size(a2) <= Size(e2)
  {
  }

  /** expr_eq: conjunctions and disjunctions are compared by cancelling copies of them. */
  method ExprEqOnCopies(e1: Node, e2: Node, ghost t1: Tree, ghost t2: Tree) returns (res: bool)
    requires Holds(t1) && Holds(t2) && t1.node == e1 && t2.node == e2
    ensures res == ExprEq(Abs(t1), Abs(t2))
    decreases Size(Abs(t1)) + Size(Abs(t2)), 2, 1
  {
    if e1.kind != e2.kind {
      return false;
    }
    match e1.kind
    case KSym => res := e1.lsym == e2.lsym;
    case KEqual => res := e1.lsym == e2.lsym && e1.rsym == e2.rsym;
    case KUnequal => res := e1.lsym == e2.lsym && e1.rsym == e2.rsym;
    case KNot => res := ExprEqOnCopies(e1.left, e2.left, t1.arg, t2.arg);
    case _ => res := CompareCopies(e1, e2, t1, t2);
  }

  method CompareCopies(e1: Node, e2: Node, ghost t1: Tree, ghost t2: Tree) returns (res: bool)
    requires Holds(t1) && Holds(t2) && t1.node == e1 && t2.node == e2 && t1.TBin? && t2.TBin? && t1.op == t2.op
    ensures res == ExprEq(Abs(t1), Abs(t2))
    decreases Size(Abs(t1)) + Size(Abs(t2)), 2, 0
  {
    CompareCase(Abs(t1), Abs(t2));
    hide Holds, Distinct, Nodes, EliminateEq, ExprEq, Size;
    AllExist(t1);
    AllExist(t2);
    var c1, s1 := Copy(e1, t1);
    AllExist(s1);
    var c2, s2 := Copy(e2, t2);
    var r1, r2, u1, u2 := EliminateEqInPlace(c1, c2, s1, s2);
    SymbolCase(u1);
    SymbolCase(u2);
    res := r1.kind == KSym && r2.kind == KSym && r1.lsym == r2.lsym;
  }

  lemma CompareCase(e1: Expr, e2: Expr)
    requires e1.Bin? && e2.HasOp(e1.op)
    ensures ExprEq(e1, e2) == var (r1, r2) := EliminateEq(e1, e2); r1.Sym? && r1 == r2
  {
  }

  lemma SymbolCase(t: Tree)
    requires Holds(t)
    ensures Abs(t).Sym? <==> t.node.kind == KSym
    ensures Abs(t).Sym? ==> Abs(t) == Sym(t.node.lsym)
  {
  }
}
