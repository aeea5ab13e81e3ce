/** The rewrites of support/kconfig/expr.c on the nodes they overwrite and reuse. */
module ExprHeaps {
  import opened Tristates
  import opened Exprs
  import opened Simplify

  datatype Kind = KSym | KEqual | KUnequal | KNot | KAnd | KOr

  /** `struct expr`: left and right are expressions or symbols, depending on the type. */
  class Node {
    var kind: Kind
    var left: Node?
    var right: Node?
    var lsym: Symbol
    var rsym: Symbol

    constructor (kind: Kind, left: Node?, right: Node?, lsym: Symbol, rsym: Symbol)
      ensures this.kind == kind && this.left == left && this.right == right && this.lsym == lsym && this.rsym == rsym
    {
      this.kind, this.left, this.right, this.lsym, this.rsym := kind, left, right, lsym, rsym;
    }
  }

  /** An expression with the nodes it is made of. */
  datatype Tree =
    | TSym(node: Node, sym: Symbol)
    | TRel(node: Node, equal: bool, l: Symbol, r: Symbol)
    | TNot(node: Node, arg: Tree)
    | TBin(node: Node, op: Op, left: Tree, right: Tree)
  {
    /** The same expression with another node at its root. */
    function At(n: Node): Tree {
      match this
      case TSym(_, s) => TSym(n, s)
      case TRel(_, equal, ls, rs) => TRel(n, equal, ls, rs)
      case TNot(_, a) => TNot(n, a)
      case TBin(_, o, a, b) => TBin(n, o, a, b)
    }
  }

  function Abs(t: Tree): Expr {
    match t
    case TSym(_, s) => Sym(s)
    case TRel(_, equal, l, r) => if equal then Equal(l, r) else Unequal(l, r)
    case TNot(_, a) => Not(Abs(a))
    case TBin(_, op, l, r) => Bin(op, Abs(l), Abs(r))
  }

  ghost function Nodes(t: Tree): set<Node> {
    {t.node} + match t
               case TNot(_, a) => Nodes(a)
               case TBin(_, _, l, r) => Nodes(l) + Nodes(r)
               case _ => {}
  }

  /** No node is used twice. */
  ghost predicate Distinct(t: Tree) {
    match t
    case TNot(n, a) => n !in Nodes(a) && Distinct(a)
    case TBin(n, _, l, r) => n !in Nodes(l) && n !in Nodes(r) && Nodes(l) !! Nodes(r) && Distinct(l) && Distinct(r)
    case _ => true
  }

  function KindOf(op: Op): Kind {
    if op.AndOp? then KAnd else KOr
  }

  /** The nodes represent the expression. */
  ghost predicate Holds(t: Tree)
    reads Nodes(t)
  {
    match t
    case TSym(n, s) => n.kind == KSym && n.lsym == s
    case TRel(n, equal, l, r) => n.kind == (if equal then KEqual else KUnequal) && n.lsym == l && n.rsym == r
    case TNot(n, a) => n.kind == KNot && n.left == a.node && n.right == null && Holds(a)
    case TBin(n, op, l, r) => n.kind == KindOf(op) && n.left == l.node && n.right == r.node && Holds(l) && Holds(r)
  }

  lemma {:induction false} AllExist(t: Tree)
    ensures forall n :: n in Nodes(t) ==> allocated(n)
  {
    match t
    case TNot(_, a) => AllExist(a);
    case TBin(_, _, l, r) =>
      AllExist(l);
      AllExist(r);
    case _ =>
  }

  // the definitions, for && and ||

  lemma Opened(t: Tree)
    requires t.TBin? && Holds(t) && Distinct(t)
    ensures t.node.kind == KindOf(t.op) && t.node.left == t.left.node && t.node.right == t.right.node
    ensures Holds(t.left) && Holds(t.right) && Distinct(t.left) && Distinct(t.right) && Nodes(t.left) !! Nodes(t.right)
    ensures t.node !in Nodes(t.left) && t.node !in Nodes(t.right)
    ensures Nodes(t) == {t.node} + Nodes(t.left) + Nodes(t.right)
  {
  }

  lemma Closed(n: Node, op: Op, l: Tree, r: Tree)
    requires n.kind == KindOf(op) && n.left == l.node && n.right == r.node && Holds(l) && Holds(r)
    requires Distinct(l) && Distinct(r) && Nodes(l) !! Nodes(r) && n !in Nodes(l) && n !in Nodes(r)
    ensures var t := TBin(n, op, l, r); Holds(t) && Distinct(t) && Nodes(t) == {n} + Nodes(l) + Nodes(r)
  {
  }

  // ---------- expr_copy ----------

  /** expr_copy: the same expression, made of new nodes. */
  method Copy(e: Node, ghost t: Tree) returns (r: Node, ghost t': Tree)
    requires Holds(t) && t.node == e
    ensures Holds(t') && t'.node == r && Distinct(t') && fresh(Nodes(t')) && Abs(t') == Abs(t)
    decreases t, 1
  {
    AllExist(t);
    match e.kind
    case KSym =>
      r := new Node(KSym, null, null, e.lsym, SymNo);
      t' := TSym(r, t.sym);
    case KEqual =>
      r := new Node(KEqual, null, null, e.lsym, e.rsym);
      t' := TRel(r, true, t.l, t.r);
    case KUnequal =>
      r := new Node(KUnequal, null, null, e.lsym, e.rsym);
      t' := TRel(r, false, t.l, t.r);
    case KNot =>
      var a, ta := Copy(e.left, t.arg);
      AllExist(ta);
      r := new Node(KNot, a, null, SymNo, SymNo);
      t' := TNot(r, ta);
    case _ => r, t' := CopyOperands(e, t);
  }

  method CopyOperands(e: Node, ghost t: Tree) returns (r: Node, ghost t': Tree)
    requires Holds(t) && t.TBin? && t.node == e
    ensures Holds(t') && t'.node == r && Distinct(t') && fresh(Nodes(t')) && Abs(t') == Abs(t)
    decreases t, 0
  {
    AllExist(t.right);
    var a, ta := Copy(e.left, t.left);
    AllExist(ta);
    var b, tb := Copy(e.right, t.right);
    AllExist(tb);
    r := new Node(e.kind, a, b, SymNo, SymNo);
    t' := TBin(r, t.op, ta, tb);
  }

  // ---------- expr_eliminate_yn ----------

  /** expr_eliminate_yn: constants disappear, and the root stays where it is, overwritten by the operand
      that is left if need be. */
  method EliminateYnInPlace(e: Node, ghost t: Tree) returns (ghost t': Tree)
    requires Holds(t) && Distinct(t) && t.node == e
    modifies Nodes(t)
    ensures Holds(t') && Distinct(t') && t'.node == e && Nodes(t') <= Nodes(t)
    ensures Abs(t') == EliminateYn(Abs(t))
    decreases t
  {
    t' := t;
    if e.kind == KAnd || e.kind == KOr {
      AllExist(t.right);
      ghost var l := EliminateYnInPlace(e.left, t.left);
      AllExist(l);
      ghost var r := EliminateYnInPlace(e.right, t.right);
      t' := CollapseYn(e, TBin(e, t.op, l, r));
    }
  }

  /** *e = *operand; afterwards e stands for the operand. */
  method MoveUp(e: Node, operand: Node, ghost t: Tree) returns (ghost t': Tree)
    requires Holds(t) && Distinct(t) && t.node == operand && e !in Nodes(t)
    modifies e
    ensures t' == t.At(e) && Holds(t') && Distinct(t') && Nodes(t') <= Nodes(t) + {e} && Abs(t') == Abs(t)
  {
    e.kind, e.left, e.right, e.lsym, e.rsym := operand.kind, operand.left, operand.right, operand.lsym, operand.rsym;
    t' := t.At(e);
    match t
    case TNot(_, a) => assert Holds(a);
    case TBin(_, _, l, r) => assert Holds(l) && Holds(r);
    case _ =>
  }

  /** One operand is a constant: either it decides the result, or the other one is the result. */
  method CollapseYn(e: Node, ghost t: Tree) returns (ghost t': Tree)
    requires Holds(t) && Distinct(t) && t.TBin? && t.node == e
    modifies e
    ensures Holds(t') && Distinct(t') && t'.node == e && Nodes(t') <= Nodes(t)
    ensures var (l, r, op) := (Abs(t.left), Abs(t.right), t.op);
            Abs(t') == if l == Sym(op.Zero()) then Sym(op.Zero())
                       else if l == Sym(op.Unit()) then r
                       else if r == Sym(op.Zero()) then Sym(op.Zero())
                       else if r == Sym(op.Unit()) then l
                       else Abs(t)
  {
    AllExist(t);
    var zero, unit := if e.kind == KAnd then SymNo else SymYes, if e.kind == KAnd then SymYes else SymNo;
    if e.left.kind == KSym && e.left.lsym == zero {
      e.kind, e.lsym, e.right := KSym, zero, null;
      t' := TSym(e, zero);
    } else if e.left.kind == KSym && e.left.lsym == unit {
      t' := MoveUp(e, e.right, t.right);
    } else if e.right.kind == KSym && e.right.lsym == zero {
      e.kind, e.lsym, e.right := KSym, zero, null;
      t' := TSym(e, zero);
    } else if e.right.kind == KSym && e.right.lsym == unit {
      t' := MoveUp(e, e.left, t.left);
    } else {
      t' := t;
    }
  }

  // ---------- expr_trans_bool ----------

  /** expr_trans_bool */
  method TransBoolInPlace(e: Node, ghost t: Tree) returns (ghost t': Tree)
    requires Holds(t) && Distinct(t) && t.node == e
    modifies Nodes(t)
    ensures Holds(t') && Distinct(t') && t'.node == e && Nodes(t') == Nodes(t)
    ensures Abs(t') == TransBool(Abs(t))
    decreases t
  {
    AllExist(t);
    match e.kind
    case KAnd =>
      AllExist(t.right);
      ghost var l := TransBoolInPlace(e.left, t.left);
      AllExist(l);
      ghost var r := TransBoolInPlace(e.right, t.right);
      t' := TBin(e, t.op, l, r);
    case KOr =>
      AllExist(t.right);
      ghost var l := TransBoolInPlace(e.left, t.left);
      AllExist(l);
      ghost var r := TransBoolInPlace(e.right, t.right);
      t' := TBin(e, t.op, l, r);
    case KNot =>
      ghost var a := TransBoolInPlace(e.left, t.arg);
      t' := TNot(e, a);
    case KUnequal =>
      t' := t;
      if e.lsym.Type().Tristate? && e.rsym == SymNo {
        e.kind := KSym;
        t' := TSym(e, t.l);
      }
    case _ => t' := t;
  }

  // ---------- expr_transform ----------

  /** The E_NOT case of expr_transform, given the transformed operand. */
  function NotStep(a: Expr): Expr {
    match a
    case Not(b) => Transform(b)
    case Equal(l, r) => Unequal(l, r)
    case Unequal(l, r) => Equal(l, r)
    case Bin(op, l, r) => Transform(Bin(op.Dual(), Not(l), Not(r)))
    case Sym(s) =>
      if s == SymYes then Sym(SymNo) else if s == SymMod then Sym(SymMod)
      else if s == SymNo then Sym(SymYes) else Not(a)
  }

  lemma TransformOfNot(a: Expr)
    ensures Transform(Not(a)) == NotStep(Transform(a)) && Weight(Transform(a)) <= Weight(a) < Weight(Not(a))
  {
    WeightPositive(a);
  }

  lemma TransformOfBin(op: Op, l: Expr, r: Expr)
    ensures Transform(Bin(op, l, r)) == Bin(op, Transform(l), Transform(r))
    ensures Weight(l) < Weight(Bin(op, l, r)) && Weight(r) < Weight(Bin(op, l, r))
  {
    WeightPositive(l);
    WeightPositive(r);
  }

  /** expr_transform: the nodes of the expression are overwritten, passed on or dropped, and those that
      De Morgan's laws need in addition are new. */
  method TransformInPlace(e: Node, ghost t: Tree) returns (r: Node, ghost t': Tree)
    requires Holds(t) && Distinct(t) && t.node == e
    modifies Nodes(t)
    ensures Holds(t') && Distinct(t') && t'.node == r
    ensures forall n :: n in Nodes(t') ==> n in Nodes(t) || fresh(n)
    ensures Abs(t') == Transform(Abs(t))
    decreases Weight(Abs(t)), 1
  {
    hide Transform, Weight;
    r, t' := e, t;
    match e.kind
    case KSym => TransformOfAtom(t);
    case KEqual =>
      TransformOfAtom(t);
      t' := TransformComparisonInPlace(e, t);
    case KUnequal =>
      TransformOfAtom(t);
      t' := TransformComparisonInPlace(e, t);
    case KNot =>
      TransformOfNot(Abs(t.arg));
      var a, ta := TransformInPlace(e.left, t.arg);
      e.left := a;
      AllExist(ta);
      NotWeight(Abs(ta), Abs(t.arg));
      ghost var mid := TNot(e, ta);
      assert forall n :: n in Nodes(mid) ==> n in Nodes(t) || fresh(n);
      r, t' := TransformNot(e, mid);
      assert forall n :: n in Nodes(t') ==> n in Nodes(mid) || fresh(n);
    case _ => t' := TransformOperands(e, t);
  }

  /** The E_AND and E_OR cases. */
  method TransformOperands(e: Node, ghost t: Tree) returns (ghost t': Tree)
    requires Holds(t) && Distinct(t) && t.TBin? && t.node == e
    modifies Nodes(t)
    ensures Holds(t') && Distinct(t') && t'.node == e
    ensures forall n :: n in Nodes(t') ==> n in Nodes(t) || fresh(n)
    ensures Abs(t') == Transform(Abs(t))
    decreases Weight(Abs(t)), 0
  {
    hide Transform, Weight;
    TransformOfBin(t.op, Abs(t.left), Abs(t.right));
    AllExist(t.right);
    var a, ta := TransformInPlace(e.left, t.left);
    AllExist(ta);
    assert Nodes(ta) !! Nodes(t.right) && e !in Nodes(ta);
    var b, tb := TransformInPlace(e.right, t.right);
    t' := Relink(e, t.op, a, ta, b, tb);
  }

  /** e->left.expr = a; e->right.expr = b; */
  method Relink(e: Node, ghost op: Op, a: Node, ghost ta: Tree, b: Node, ghost tb: Tree) returns (ghost t': Tree)
    requires Holds(ta) && Distinct(ta) && ta.node == a && Holds(tb) && Distinct(tb) && tb.node == b
    requires Nodes(ta) !! Nodes(tb) && e !in Nodes(ta) && e !in Nodes(tb) && e.kind == KindOf(op)
    modifies e
    ensures t' == TBin(e, op, ta, tb) && Holds(t') && Distinct(t') && Nodes(t') == {e} + Nodes(ta) + Nodes(tb)
  {
    AllExist(ta);
    AllExist(tb);
    e.left, e.right := a, b;
    t' := TBin(e, op, ta, tb);
    Closed(e, op, ta, tb);
  }

  lemma TransformOfAtom(t: Tree)
    requires t.TSym? || t.TRel?
    ensures Transform(Abs(t)) == if t.TSym? then Abs(t) else TransformComparison(Abs(t))
  {
  }

  lemma NotWeight(a: Expr, b: Expr)
    requires Weight(a) <= Weight(b)
    ensures Weight(Not(a)) <= Weight(Not(b))
  {
  }

  /** The E_EQUAL and E_UNEQUAL cases. */
  method TransformComparisonInPlace(e: Node, ghost t: Tree) returns (ghost t': Tree)
    requires Holds(t) && t.TRel? && t.node == e
    modifies e
    ensures Holds(t') && Distinct(t') && t'.node == e
    ensures forall n :: n in Nodes(t') ==> n == e || fresh(n)
    ensures Abs(t') == TransformComparison(Abs(t))
  {
    t' := t;
    if !e.lsym.Type().Boolean? {
      return;
    }
    if (e.rsym == SymNo && e.kind == KEqual) || (e.rsym == SymYes && e.kind == KUnequal) {
      var s := new Node(KSym, null, null, e.lsym, SymNo);
      e.kind, e.left, e.right := KNot, s, null;
      t' := TNot(e, TSym(s, t.l));
    } else if e.rsym == SymMod {
      e.lsym := if e.kind == KEqual then SymNo else SymYes;
      e.kind := KSym;
      t' := TSym(e, e.lsym);
    } else if e.rsym == SymYes || e.rsym == SymNo {
      e.kind := KSym;
      t' := TSym(e, t.l);
    }
  }

  /** The E_NOT case, when the operand has been transformed. */
  method TransformNot(e: Node, ghost t: Tree) returns (r: Node, ghost t': Tree)
    requires Holds(t) && Distinct(t) && t.TNot? && t.node == e
    modifies Nodes(t)
    ensures Holds(t') && Distinct(t') && t'.node == r
    ensures forall n :: n in Nodes(t') ==> n in Nodes(t) || fresh(n)
    ensures Abs(t') == NotStep(Abs(t.arg))
    decreases Weight(Abs(t)), 0
  {
    hide Transform, Weight;
    var tmp := e.left;
    match tmp.kind
    case KNot =>
      DoubleNot(Abs(t.arg.arg));
      assert Abs(t) == Not(Not(Abs(t.arg.arg)));
      r, t' := TransformInPlace(tmp.left, t.arg.arg);
    case KEqual =>
      tmp.kind := KUnequal;
      r, t' := tmp, TRel(tmp, false, t.arg.l, t.arg.r);
    case KUnequal =>
      tmp.kind := KEqual;
      r, t' := tmp, TRel(tmp, true, t.arg.l, t.arg.r);
    case KSym =>
      if tmp.lsym == SymYes {
        tmp.lsym := SymNo;
        r, t' := tmp, TSym(tmp, SymNo);
      } else if tmp.lsym == SymMod {
        r, t' := tmp, t.arg;
      } else if tmp.lsym == SymNo {
        tmp.lsym := SymYes;
        r, t' := tmp, TSym(tmp, SymYes);
      } else {
        r, t' := e, t;
      }
    case _ =>
      PushingNotLosesWeight(t.arg.op, Abs(t.arg.left), Abs(t.arg.right));
      assert Abs(t) == Not(Bin(t.arg.op, Abs(t.arg.left), Abs(t.arg.right)));
      ghost var pushed := PushNot(e, t);
      assert forall n :: n in Nodes(pushed) ==> n in Nodes(t) || fresh(n);
      r, t' := TransformInPlace(e, pushed);
      assert forall n :: n in Nodes(t') ==> n in Nodes(pushed) || fresh(n);
  }

  lemma DoubleNot(a: Expr)
    ensures Weight(a) < Weight(Not(Not(a)))
  {
    WeightPositive(a);
  }

  /** !(a || b) becomes !a && !b: the node of || becomes the first negation, the second one is new. */
  method PushNot(e: Node, ghost t: Tree) returns (ghost t': Tree)
    requires Holds(t) && Distinct(t) && t.TNot? && t.arg.TBin? && t.node == e
    modifies e, t.arg.node
    ensures Holds(t') && Distinct(t') && t'.node == e
    ensures forall n :: n in Nodes(t') ==> n in Nodes(t) || fresh(n)
    ensures Abs(t') == Bin(t.arg.op.Dual(), Not(Abs(t.arg.left)), Not(Abs(t.arg.right)))
  {
    AllExist(t.arg.left);
    AllExist(t.arg.right);
    var tmp := e.left;
    var second := new Node(KNot, tmp.right, null, SymNo, SymNo);
    e.kind := if tmp.kind == KOr then KAnd else KOr;
    e.right := second;
    tmp.kind := KNot;
    tmp.right := null;
    t' := TBin(e, t.arg.op.Dual(), TNot(tmp, t.arg.left), TNot(second, t.arg.right));
  }
}
