/** Duplicate elimination: expr_join_or, expr_join_and, expr_eliminate_dups1, expr_eliminate_dups2
    and the fixpoint loop around them.

    The original hands the same tree to both arguments and writes through `struct expr **` slots
    that lie inside one another. A slot is modelled by the path that leads to it from the root of
    the tree, so both slots of a call name places in one tree, and a write through one of them is
    seen by every later read through the other. */
module Duplicates {
  import opened Tristates
  import opened Exprs
  import opened Simplify
  import opened Equality

  // ---------- expr_join_or and expr_join_and ----------

  function AtomSym(e: Expr): Symbol
    requires e.IsAtom()
  {
    if e.Sym? then e.sym else e.lsym
  }

  /** The symbol the two operands have to share; a negated second operand must be a plain symbol. */
  function SharedSym(e1: Expr, e2: Expr): Option<Symbol> {
    if !(e1.IsAtom() || e1.Not?) || !(e2.IsAtom() || e2.Not?) then None
    else if e1.Not? && !e1.arg.IsAtom() then None
    else if e2.Not? && !e2.arg.Sym? then None
    else
      var sym1 := AtomSym(if e1.Not? then e1.arg else e1);
      var sym2 := AtomSym(if e2.Not? then e2.arg else e2);
      if sym1 == sym2 && sym1.IsLogical() then Some(sym1) else None
  }

  predicate SamePair(a: Symbol, b: Symbol, x: Symbol, y: Symbol) {
    (a == x && b == y) || (a == y && b == x)
  }

  predicate SymbolAndNegation(e1: Expr, e2: Expr) {
    (e1.Not? && e1.arg.Sym? && e2.Sym?) || (e2.Not? && e2.arg.Sym? && e1.Sym?)
  }

  /** One side is the symbol itself, the other is `sym != c`. */
  predicate SymbolAndUnequal(e1: Expr, e2: Expr, c: Symbol) {
    (e1.Sym? && e2.Unequal? && e2.rsym == c) || (e2.Sym? && e1.Unequal? && e1.rsym == c)
  }

  predicate SymbolAndEqual(e1: Expr, e2: Expr, c: Symbol) {
    (e1.Sym? && e2.Equal? && e2.rsym == c) || (e2.Sym? && e1.Equal? && e1.rsym == c)
  }

  /** expr_join_or: a single expression for e1 || e2, if a rule applies. */
  function JoinOr(e1: Expr, e2: Expr): Option<Expr> {
    if ExprEq(e1, e2) then Some(e1)
    else match SharedSym(e1, e2)
      case None => None
      case Some(s) =>
        if s.Type().Tristate? && e1.Equal? && e2.Equal? && SamePair(e1.rsym, e2.rsym, SymYes, SymMod) then
          Some(Unequal(s, SymNo))
        else if s.Type().Tristate? && e1.Equal? && e2.Equal? && SamePair(e1.rsym, e2.rsym, SymYes, SymNo) then
          Some(Unequal(s, SymMod))
        else if s.Type().Tristate? && e1.Equal? && e2.Equal? && SamePair(e1.rsym, e2.rsym, SymMod, SymNo) then
          Some(Unequal(s, SymYes))
        else if s.Type().Boolean? && SymbolAndNegation(e1, e2) then
          Some(Sym(SymYes))
        else None
  }

  /** `a = b && a != c` for two constants b and c */
  function JoinEqualUnequal(s: Symbol, b: Symbol, c: Symbol): Expr {
    if b != c then Equal(s, b) else Sym(SymNo)
  }

  /** expr_join_and: a single expression for e1 && e2, if a rule applies. */
  function JoinAnd(e1: Expr, e2: Expr): Option<Expr> {
    if ExprEq(e1, e2) then Some(e1)
    else match SharedSym(e1, e2)
      case None => None
      case Some(s) =>
        if SymbolAndEqual(e1, e2, SymYes) then Some(Equal(s, SymYes))
        else if SymbolAndUnequal(e1, e2, SymNo) then Some(Sym(s))
        else if SymbolAndUnequal(e1, e2, SymMod) then Some(Equal(s, SymYes))
        else if !s.Type().Tristate? then None
        else if e1.Equal? && e2.Unequal? && e1.rsym.IsConst() && e2.rsym.IsConst() then
          Some(JoinEqualUnequal(s, e1.rsym, e2.rsym))
        else if e1.Unequal? && e2.Equal? && e1.rsym.IsConst() && e2.rsym.IsConst() then
          Some(JoinEqualUnequal(s, e2.rsym, e1.rsym))
        else if e1.Unequal? && e2.Unequal? && SamePair(e1.rsym, e2.rsym, SymYes, SymNo) then
          Some(Equal(s, SymMod))
        else if e1.Unequal? && e2.Unequal? && SamePair(e1.rsym, e2.rsym, SymYes, SymMod) then
          Some(Equal(s, SymNo))
        else if e1.Unequal? && e2.Unequal? && SamePair(e1.rsym, e2.rsym, SymMod, SymNo) then
          Some(Equal(s, SymYes))
        else None
  }

  function Join(op: Op, e1: Expr, e2: Expr): Option<Expr> {
    if op.AndOp? then JoinAnd(e1, e2) else JoinOr(e1, e2)
  }

  lemma JoinOrKeepsValue(v: Valuation, e1: Expr, e2: Expr)
    requires v.WellFormed() && JoinOr(e1, e2).Some?
    ensures Value(v, JoinOr(e1, e2).value) == Max(Value(v, e1), Value(v, e2))
  {
    if ExprEq(e1, e2) {
      ExprEqSound(v, e1, e2);
    } else {
      var s := SharedSym(e1, e2).value;
      assert v.str(s) == Letter(v.tri(s));
    }
  }

  lemma JoinAndKeepsValue(v: Valuation, e1: Expr, e2: Expr)
    requires v.WellFormed() && JoinAnd(e1, e2).Some?
    ensures Value(v, JoinAnd(e1, e2).value) == Min(Value(v, e1), Value(v, e2))
  {
    if ExprEq(e1, e2) {
      ExprEqSound(v, e1, e2);
    } else {
      var s := SharedSym(e1, e2).value;
      assert v.str(s) == Letter(v.tri(s));
    }
  }

  /** Every join rule keeps the full three-valued meaning. */
  lemma JoinKeepsValue(v: Valuation, op: Op, e1: Expr, e2: Expr)
    requires v.WellFormed() && Join(op, e1, e2).Some?
    ensures Value(v, Join(op, e1, e2).value) == op.Apply(Value(v, e1), Value(v, e2))
  {
    if op.AndOp? {
      JoinAndKeepsValue(v, e1, e2);
    } else {
      JoinOrKeepsValue(v, e1, e2);
    }
  }

  /** Beside equal operands: a symbol with what says the same, more, or the opposite of it, and two comparisons of
      one tristate symbol. */
  predicate Mergeable(op: Op, a: Expr, b: Expr) {
    match op
    case OrOp =>
      || (a.Sym? && b == Not(a) && a.sym.Type().Boolean?)
      || (a.Equal? && b.Equal? && SameTristate(a, b) && a.rsym.IsFixed() && b.rsym.IsFixed() && a.rsym != b.rsym)
    case AndOp =>
      || (a.Sym? && a.sym.IsLogical()
          && (b == Equal(a.sym, SymYes) || b == Unequal(a.sym, SymNo) || b == Unequal(a.sym, SymMod)))
      || (a.Equal? && b.Unequal? && SameTristate(a, b) && a.rsym.IsConst() && b.rsym.IsConst())
      || (a.Unequal? && b.Unequal? && SameTristate(a, b) && a.rsym.IsFixed() && b.rsym.IsFixed() && a.rsym != b.rsym)
  }

  predicate SameTristate(a: Expr, b: Expr)
    requires (a.Equal? || a.Unequal?) && (b.Equal? || b.Unequal?)
  {
    a.lsym == b.lsym && a.lsym.Type().Tristate?
  }

  /** Exactly these pairs are joined. */
  lemma JoinedExactly(op: Op, a: Expr, b: Expr)
    ensures Join(op, a, b).Some? <==> ExprEq(a, b) || Mergeable(op, a, b) || Mergeable(op, b, a)
  {
    if op.AndOp? {
      JoinedByAnd(a, b);
    } else {
      JoinedByOr(a, b);
    }
  }

  lemma JoinedByOr(a: Expr, b: Expr)
    ensures JoinOr(a, b).Some? <==> ExprEq(a, b) || Mergeable(OrOp, a, b) || Mergeable(OrOp, b, a)
  {
    hide ExprEq;
  }

  lemma JoinedByAnd(a: Expr, b: Expr)
    ensures JoinAnd(a, b).Some? <==> ExprEq(a, b) || Mergeable(AndOp, a, b) || Mergeable(AndOp, b, a)
  {
    hide ExprEq;
  }

  /** A join never grows the pair, does not produce an op-tree, and stays in normal form. */
  lemma JoinShape(op: Op, e1: Expr, e2: Expr)
    requires Join(op, e1, e2).Some? && !e1.HasOp(op)
    ensures var j := Join(op, e1, e2).value;
            && !j.HasOp(op)
            && 1 + Size(j) <= Size(e1) + Size(e2)
            && (Nnf(e1) ==> Nnf(j))
  {
    SizePositive(e1);
    SizePositive(e2);
  }

  // ---------- slots ----------

  datatype Side = L | R

  type Path = seq<Side>

  function Child(e: Expr, d: Side): Expr
    requires e.Bin?
  {
    if d.L? then e.left else e.right
  }

  function WithChild(e: Expr, d: Side, x: Expr): Expr
    requires e.Bin?
  {
    if d.L? then Bin(e.op, x, e.right) else Bin(e.op, e.left, x)
  }

  /** The path runs through op-nodes only: it names a slot expr_eliminate_dups can be handed. */
  predicate OnSpine(op: Op, t: Expr, p: Path) {
    p == [] || (t.HasOp(op) && OnSpine(op, Child(t, p[0]), p[1..]))
  }

  /** What a slot holds. */
  function At(op: Op, t: Expr, p: Path): Expr
    requires OnSpine(op, t, p)
  {
    if p == [] then t else At(op, Child(t, p[0]), p[1..])
  }

  /** Writing through a slot. */
  function Put(op: Op, t: Expr, p: Path, x: Expr): Expr
    requires OnSpine(op, t, p)
  {
    if p == [] then x else WithChild(t, p[0], Put(op, Child(t, p[0]), p[1..], x))
  }

  /** The slot of an operand: what it holds is not itself an op-node. */
  predicate IsOperand(op: Op, t: Expr, p: Path) {
    OnSpine(op, t, p) && !At(op, t, p).HasOp(op)
  }

  /** Same op-nodes at the same places. */
  predicate SameSpine(op: Op, a: Expr, b: Expr) {
    && a.HasOp(op) == b.HasOp(op)
    && (a.HasOp(op) ==> SameSpine(op, a.left, b.left) && SameSpine(op, a.right, b.right))
  }

  function SpineSize(op: Op, t: Expr): nat {
    if t.HasOp(op) then 1 + SpineSize(op, t.left) + SpineSize(op, t.right) else 1
  }

  lemma {:induction false} SameSpineReflexive(op: Op, t: Expr)
    ensures SameSpine(op, t, t)
  {
    if t.HasOp(op) {
      SameSpineReflexive(op, t.left);
      SameSpineReflexive(op, t.right);
    }
  }

  lemma {:induction false} SameSpineTransitive(op: Op, a: Expr, b: Expr, c: Expr)
    requires SameSpine(op, a, b) && SameSpine(op, b, c)
    ensures SameSpine(op, a, c)
  {
    if a.HasOp(op) {
      SameSpineTransitive(op, a.left, b.left, c.left);
      SameSpineTransitive(op, a.right, b.right, c.right);
    }
  }

  /** A slot stays a slot, of the same extent, as long as the spine does not change. */
  lemma {:induction false} SameSpineSlots(op: Op, a: Expr, b: Expr, p: Path)
    requires SameSpine(op, a, b) && OnSpine(op, a, p)
    ensures OnSpine(op, b, p)
    ensures At(op, a, p).HasOp(op) == At(op, b, p).HasOp(op)
    ensures SpineSize(op, At(op, a, p)) == SpineSize(op, At(op, b, p))
  {
    if p == [] {
      SameSpineSize(op, a, b);
    } else {
      SameSpineSlots(op, Child(a, p[0]), Child(b, p[0]), p[1..]);
    }
  }

  lemma {:induction false} SameSpineSize(op: Op, a: Expr, b: Expr)
    requires SameSpine(op, a, b)
    ensures SpineSize(op, a) == SpineSize(op, b)
  {
    if a.HasOp(op) {
      SameSpineSize(op, a.left, b.left);
      SameSpineSize(op, a.right, b.right);
    }
  }

  /** From a slot holding an op-node one can step to its children's slots. */
  lemma {:induction false} StepDown(op: Op, t: Expr, p: Path, d: Side)
    requires OnSpine(op, t, p) && At(op, t, p).HasOp(op)
    ensures OnSpine(op, t, p + [d])
    ensures At(op, t, p + [d]) == Child(At(op, t, p), d)
    ensures SpineSize(op, At(op, t, p + [d])) < SpineSize(op, At(op, t, p))
  {
    if p == [] {
      assert p + [d] == [d];
      assert [d][1..] == [];
    } else {
      StepDown(op, Child(t, p[0]), p[1..], d);
      assert (p + [d])[1..] == p[1..] + [d];
    }
  }

  /** Writing an operand: the spine, the other operands, and the arithmetic of sizes. */
  lemma {:induction false} PutOperand(op: Op, t: Expr, p: Path, x: Expr)
    requires IsOperand(op, t, p) && !x.HasOp(op)
    ensures SameSpine(op, t, Put(op, t, p, x))
    ensures IsOperand(op, Put(op, t, p, x), p) && At(op, Put(op, t, p, x), p) == x
    ensures Size(Put(op, t, p, x)) + Size(At(op, t, p)) == Size(t) + Size(x)
    ensures x == At(op, t, p) ==> Put(op, t, p, x) == t
    ensures Nnf(t) ==> Nnf(At(op, t, p))
    ensures Nnf(t) && Nnf(x) ==> Nnf(Put(op, t, p, x))
    ensures p != [] ==> Size(At(op, t, p)) < Size(t)
  {
    if p != [] {
      PutOperand(op, Child(t, p[0]), p[1..], x);
      SizePositive(t.left);
      SizePositive(t.right);
      SameSpineReflexive(op, t.left);
      SameSpineReflexive(op, t.right);
    }
  }

  lemma {:induction false} PutElsewhere(op: Op, t: Expr, p: Path, q: Path, x: Expr)
    requires IsOperand(op, t, p) && IsOperand(op, t, q) && p != q && !x.HasOp(op)
    ensures IsOperand(op, Put(op, t, p, x), q) && At(op, Put(op, t, p, x), q) == At(op, t, q)
  {
    if p != [] && q != [] && p[0] == q[0] {
      PutElsewhere(op, Child(t, p[0]), p[1..], q[1..], x);
    }
  }

  /** A constant written below an operator is found by expr_eliminate_yn. */
  lemma {:induction false} PutLeavesConstant(op: Op, t: Expr, p: Path, x: Expr)
    requires IsOperand(op, t, p) && p != []
    requires x.IsYesNo() || !YnFree(x)
    ensures !YnFree(Put(op, t, p, x))
  {
    if |p| > 1 {
      PutLeavesConstant(op, Child(t, p[0]), p[1..], x);
    }
  }

  // ---------- expr_eliminate_dups1 ----------

  /** expr_eliminate_dups1 on the slots p1 and p2 of the tree t; the second component counts
      the increments of trans_count. */
  function Dups1(op: Op, t: Expr, p1: Path, p2: Path): (r: (Expr, nat))
    requires t.HasOp(op) && OnSpine(op, t, p1) && OnSpine(op, t, p2)
    ensures SameSpine(op, t, r.0)
    ensures Size(r.0) <= Size(t)
    ensures if r.1 == 0 then r.0 == t else !YnFree(r.0)
    decreases Size(t), SpineSize(op, At(op, t, p1)) + SpineSize(op, At(op, t, p2))
  {
    var e1 := At(op, t, p1);
    var e2 := At(op, t, p2);
    if e1.HasOp(op) then
      StepDown(op, t, p1, L);
      StepDown(op, t, p1, R);
      var (t1, n1) := Dups1(op, t, p1 + [L], p2);
      SameSpineSlots(op, t, t1, p1 + [R]);
      SameSpineSlots(op, t, t1, p2);
      var (t2, n2) := Dups1(op, t1, p1 + [R], p2);
      SameSpineTransitive(op, t, t1, t2);
      (t2, n1 + n2)
    else if e2.HasOp(op) then
      StepDown(op, t, p2, L);
      StepDown(op, t, p2, R);
      var (t1, n1) := Dups1(op, t, p1, p2 + [L]);
      SameSpineSlots(op, t, t1, p2 + [R]);
      SameSpineSlots(op, t, t1, p1);
      var (t2, n2) := Dups1(op, t1, p1, p2 + [R]);
      SameSpineTransitive(op, t, t1, t2);
      (t2, n1 + n2)
    else if p1 == p2 then
      SameSpineReflexive(op, t);
      (t, 0)
    else
      PutOperand(op, t, p1, e1);
      var (x1, n1) := if e1.Bin? then Dups1(e1.op, e1, [], []) else (e1, 0);
      var t1 := Put(op, t, p1, x1);
      assert SameSpine(op, t, t1) && Size(t1) <= Size(t) && (if n1 == 0 then t1 == t else !YnFree(t1))
             && !x1.HasOp(op) by {
        OperandRewritten1(op, t, p1, x1, n1);
      }
      var j := Join(op, x1, e2);
      if j.Some? then
        JoinWritten(op, t, p1, p2, x1);
        (Put(op, Put(op, t1, p1, Sym(op.Unit())), p2, j.value), n1 + 1)
      else
        (t1, n1)
  }

  lemma OperandRewritten1(op: Op, t: Expr, p1: Path, x1: Expr, n1: nat)
    requires t.HasOp(op) && IsOperand(op, t, p1)
    requires var e1 := At(op, t, p1);
             if e1.Bin? then SameSpine(e1.op, e1, x1) && Size(x1) <= Size(e1)
                             && (if n1 == 0 then x1 == e1 else !YnFree(x1))
             else x1 == e1 && n1 == 0
    ensures !x1.HasOp(op)
    ensures var t1 := Put(op, t, p1, x1);
            SameSpine(op, t, t1) && Size(t1) <= Size(t) && (if n1 == 0 then t1 == t else !YnFree(t1))
  {
    PutOperand(op, t, p1, x1);
    if n1 > 0 {
      PutLeavesConstant(op, t, p1, x1);
    }
  }

  /** The two writes of a successful join. */
  lemma JoinWritten(op: Op, t: Expr, p1: Path, p2: Path, x1: Expr)
    requires t.HasOp(op) && IsOperand(op, t, p1) && IsOperand(op, t, p2) && p1 != p2
    requires !x1.HasOp(op) && Size(x1) <= Size(At(op, t, p1))
    requires Join(op, x1, At(op, t, p2)).Some?
    ensures var t1 := Put(op, t, p1, x1);
            && OnSpine(op, t1, p1)
            && var t2 := Put(op, t1, p1, Sym(op.Unit()));
            && OnSpine(op, t2, p2)
            && var t3 := Put(op, t2, p2, Join(op, x1, At(op, t, p2)).value);
            && SameSpine(op, t, t3) && Size(t3) <= Size(t) && !YnFree(t3)
            && (Nnf(t) && Nnf(x1) ==> Nnf(t3))
  {
    var e2 := At(op, t, p2);
    var j := Join(op, x1, e2).value;
    JoinShape(op, x1, e2);
    PutOperand(op, t, p1, x1);
    PutElsewhere(op, t, p1, p2, x1);
    var t1 := Put(op, t, p1, x1);
    PutOperand(op, t1, p1, Sym(op.Unit()));
    PutElsewhere(op, t1, p1, p2, Sym(op.Unit()));
    var t2 := Put(op, t1, p1, Sym(op.Unit()));
    PutOperand(op, t2, p2, j);
    PutElsewhere(op, t2, p2, p1, j);
    var t3 := Put(op, t2, p2, j);
    SameSpineTransitive(op, t, t1, t2);
    SameSpineTransitive(op, t, t2, t3);
    PutOperand(op, t3, p1, Sym(op.Unit()));
    PutLeavesConstant(op, t3, p1, Sym(op.Unit()));
  }

  // ---------- the value of a tree, seen from its slots ----------

  /** The combined value of all operands except the one at p ... */
  function Rest(v: Valuation, op: Op, t: Expr, p: Path): Tri
    requires v.WellFormed() && OnSpine(op, t, p)
  {
    if p == [] then v.tri(op.Unit())
    else op.Apply(Rest(v, op, Child(t, p[0]), p[1..]), Value(v, Child(t, Other(p[0]))))
  }

  function Other(d: Side): Side {
    if d.L? then R else L
  }

  lemma {:induction false} ValueAt(v: Valuation, op: Op, t: Expr, p: Path, x: Expr)
    requires v.WellFormed() && OnSpine(op, t, p)
    ensures Value(v, t) == op.Apply(Value(v, At(op, t, p)), Rest(v, op, t, p))
    ensures Value(v, Put(op, t, p, x)) == op.Apply(Value(v, x), Rest(v, op, t, p))
  {
    if p != [] {
      var c := Child(t, p[0]);
      ValueAt(v, op, c, p[1..], x);
      var o := Value(v, Child(t, Other(p[0])));
      ApplyInterchange(op, Value(v, At(op, c, p[1..])), Rest(v, op, c, p[1..]), o, o);
      ApplyInterchange(op, Value(v, x), Rest(v, op, c, p[1..]), o, o);
    }
  }

  /** Two operands may be exchanged for any two with the same combined value. */
  lemma {:induction false} TwoOperands(v: Valuation, op: Op, t: Expr, p: Path, q: Path, a: Expr, b: Expr)
    requires v.WellFormed() && IsOperand(op, t, p) && IsOperand(op, t, q) && p != q && !a.HasOp(op)
    requires op.Apply(Value(v, a), Value(v, b)) == op.Apply(Value(v, At(op, t, p)), Value(v, At(op, t, q)))
    ensures OnSpine(op, Put(op, t, p, a), q)
    ensures Value(v, Put(op, Put(op, t, p, a), q, b)) == Value(v, t)
  {
    PutElsewhere(op, t, p, q, a);
    if p[0] == q[0] {
      var c := Child(t, p[0]);
      TwoOperands(v, op, c, p[1..], q[1..], a, b);
      assert Put(op, Put(op, t, p, a), q, b)
          == WithChild(t, p[0], Put(op, Put(op, c, p[1..], a), q[1..], b));
    } else {
      OperandsApart(v, op, t, p, q, a, b);
    }
  }

  lemma OperandsApart(v: Valuation, op: Op, t: Expr, p: Path, q: Path, a: Expr, b: Expr)
    requires v.WellFormed() && t.HasOp(op) && OnSpine(op, t, p) && OnSpine(op, t, q)
    requires p != [] && q != [] && p[0] != q[0]
    requires op.Apply(Value(v, a), Value(v, b)) == op.Apply(Value(v, At(op, t, p)), Value(v, At(op, t, q)))
    requires OnSpine(op, Put(op, t, p, a), q)
    ensures Value(v, Put(op, Put(op, t, p, a), q, b)) == Value(v, t)
  {
    var tp, tq := Child(t, p[0]), Child(t, q[0]);
    ValueAt(v, op, tp, p[1..], a);
    ValueAt(v, op, tq, q[1..], b);
    var a', b' := Put(op, tp, p[1..], a), Put(op, tq, q[1..], b);
    assert Put(op, Put(op, t, p, a), q, b) == WithChild(WithChild(t, p[0], a'), q[0], b');
    FourWay(op, Value(v, a), Value(v, b), Value(v, At(op, t, p)), Value(v, At(op, t, q)),
            Rest(v, op, tp, p[1..]), Rest(v, op, tq, q[1..]));
    assert op.Apply(Value(v, a'), Value(v, b')) == op.Apply(Value(v, tp), Value(v, tq));
    ApplyCommutes(op, Value(v, a'), Value(v, b'));
    ApplyCommutes(op, Value(v, tp), Value(v, tq));
  }

  lemma ApplyCommutes(op: Op, a: Tri, b: Tri)
    ensures op.Apply(a, b) == op.Apply(b, a)
  {
  }

  lemma FourWay(op: Op, a: Tri, b: Tri, a': Tri, b': Tri, c: Tri, d: Tri)
    requires op.Apply(a, b) == op.Apply(a', b')
    ensures op.Apply(op.Apply(a, c), op.Apply(b, d)) == op.Apply(op.Apply(a', c), op.Apply(b', d))
  {
    ApplyInterchange(op, a, c, b, d);
    ApplyInterchange(op, a', c, b', d);
  }

  /** expr_eliminate_dups1 keeps the full three-valued meaning of the tree both slots lie in. */
  lemma {:induction false} Dups1KeepsValue(v: Valuation, op: Op, t: Expr, p1: Path, p2: Path)
    requires v.WellFormed() && t.HasOp(op) && OnSpine(op, t, p1) && OnSpine(op, t, p2)
    ensures Value(v, Dups1(op, t, p1, p2).0) == Value(v, t)
    decreases Size(t), SpineSize(op, At(op, t, p1)) + SpineSize(op, At(op, t, p2)), 1
  {
    var e1 := At(op, t, p1);
    var e2 := At(op, t, p2);
    if e1.HasOp(op) {
      StepDown(op, t, p1, L);
      StepDown(op, t, p1, R);
      var t1 := Dups1(op, t, p1 + [L], p2).0;
      SameSpineSlots(op, t, t1, p1 + [R]);
      SameSpineSlots(op, t, t1, p2);
      Dups1KeepsValue(v, op, t, p1 + [L], p2);
      Dups1KeepsValue(v, op, t1, p1 + [R], p2);
    } else if e2.HasOp(op) {
      StepDown(op, t, p2, L);
      StepDown(op, t, p2, R);
      var t1 := Dups1(op, t, p1, p2 + [L]).0;
      SameSpineSlots(op, t, t1, p2 + [R]);
      SameSpineSlots(op, t, t1, p1);
      Dups1KeepsValue(v, op, t, p1, p2 + [L]);
      Dups1KeepsValue(v, op, t1, p1, p2 + [R]);
    } else if p1 != p2 {
      Dups1OperandsKeepValue(v, op, t, p1, p2);
    }
  }

  lemma {:induction false} Dups1OperandsKeepValue(v: Valuation, op: Op, t: Expr, p1: Path, p2: Path)
    requires v.WellFormed() && t.HasOp(op) && IsOperand(op, t, p1) && IsOperand(op, t, p2) && p1 != p2
    ensures Value(v, Dups1(op, t, p1, p2).0) == Value(v, t)
    decreases Size(t), SpineSize(op, At(op, t, p1)) + SpineSize(op, At(op, t, p2)), 0
  {
    var e1 := At(op, t, p1);
    var e2 := At(op, t, p2);
    PutOperand(op, t, p1, e1);
    var (x1, n1) := if e1.Bin? then Dups1(e1.op, e1, [], []) else (e1, 0);
    if e1.Bin? {
      Dups1KeepsValue(v, e1.op, e1, [], []);
    }
    PutOperand(op, t, p1, x1);
    PutElsewhere(op, t, p1, p2, x1);
    ValueAt(v, op, t, p1, x1);
    var t1 := Put(op, t, p1, x1);
    if Join(op, x1, e2).Some? {
      JoinKeepsValue(v, op, x1, e2);
      TwoOperands(v, op, t1, p1, p2, Sym(op.Unit()), Join(op, x1, e2).value);
    }
  }

  // ---------- expr_eliminate_dups2 ----------

  /** `(FOO || BAR) && (!FOO && !BAR)` is n: does what stands at p2 contain, as operands, all of
      the negation of what stands at p1? */
  predicate Contradicts(op: Op, e1: Expr, e2: Expr) {
    ExtractEqTop(op, Transform(Not(e1)), e2).1 == Sym(op.Unit())
  }

  /** expr_eliminate_dups2. Unlike its sibling it goes on after descending into the second slot,
      and so also compares an operand with the whole tree it is part of. */
  function Dups2(op: Op, t: Expr, p1: Path, p2: Path): (r: (Expr, nat))
    requires t.HasOp(op) && OnSpine(op, t, p1) && OnSpine(op, t, p2)
    ensures SameSpine(op, t, r.0)
    ensures Size(r.0) <= Size(t)
    ensures if r.1 == 0 then r.0 == t else !YnFree(r.0)
    decreases Size(t), SpineSize(op, At(op, t, p1)) + SpineSize(op, At(op, t, p2)), 1
  {
    var e1 := At(op, t, p1);
    if e1.HasOp(op) then
      StepDown(op, t, p1, L);
      StepDown(op, t, p1, R);
      var (t1, n1) := Dups2(op, t, p1 + [L], p2);
      SameSpineSlots(op, t, t1, p1 + [R]);
      SameSpineSlots(op, t, t1, p2);
      var (t2, n2) := Dups2(op, t1, p1 + [R], p2);
      SameSpineTransitive(op, t, t1, t2);
      (t2, n1 + n2)
    else if At(op, t, p2).HasOp(op) then
      StepDown(op, t, p2, L);
      StepDown(op, t, p2, R);
      var (t1, n1) := Dups2(op, t, p1, p2 + [L]);
      SameSpineSlots(op, t, t1, p2 + [R]);
      SameSpineSlots(op, t, t1, p1);
      var (t2, n2) := Dups2(op, t1, p1, p2 + [R]);
      SameSpineTransitive(op, t, t1, t2);
      SameSpineSlots(op, t, t2, p1);
      SameSpineSlots(op, t, t2, p2);
      var (t3, n3) := Dups2Operand(op, t2, p1, p2);
      SameSpineTransitive(op, t, t2, t3);
      (t3, n1 + n2 + n3)
    else
      Dups2Operand(op, t, p1, p2)
  }

  /** The rest of expr_eliminate_dups2, once the first slot holds an operand. */
  function Dups2Operand(op: Op, t: Expr, p1: Path, p2: Path): (r: (Expr, nat))
    requires t.HasOp(op) && IsOperand(op, t, p1) && OnSpine(op, t, p2)
    ensures SameSpine(op, t, r.0)
    ensures Size(r.0) <= Size(t)
    ensures if r.1 == 0 then r.0 == t else !YnFree(r.0)
    decreases Size(t), SpineSize(op, At(op, t, p1)) + SpineSize(op, At(op, t, p2)), 0
  {
    var e1 := At(op, t, p1);
    SameSpineReflexive(op, t);
    if p1 == p2 || !e1.Bin? then (t, 0)
    else
      PutOperand(op, t, p1, e1);
      var (x1, n1) := Dups2(e1.op, e1, [], []);
      OperandRewritten1(op, t, p1, x1, n1);
      PutOperand(op, t, p1, x1);
      var t1 := Put(op, t, p1, x1);
      SameSpineSlots(op, t, t1, p2);
      if Contradicts(op, x1, At(op, t1, p2)) then
        OperandDecided(op, t, p1, x1);
        (Put(op, t1, p1, Sym(op.Zero())), n1 + 1)
      else
        (t1, n1)
  }

  lemma OperandDecided(op: Op, t: Expr, p1: Path, x1: Expr)
    requires t.HasOp(op) && IsOperand(op, t, p1) && !x1.HasOp(op) && Size(x1) <= Size(At(op, t, p1))
    ensures OnSpine(op, Put(op, t, p1, x1), p1)
    ensures var t' := Put(op, Put(op, t, p1, x1), p1, Sym(op.Zero()));
            SameSpine(op, t, t') && Size(t') <= Size(t) && !YnFree(t')
  {
    PutOperand(op, t, p1, x1);
    var t1 := Put(op, t, p1, x1);
    PutOperand(op, t1, p1, Sym(op.Zero()));
    PutLeavesConstant(op, t1, p1, Sym(op.Zero()));
    SameSpineTransitive(op, t, t1, Put(op, t1, p1, Sym(op.Zero())));
    SizePositive(x1);
  }

  lemma ApplyRefines(op: Op, a: Tri, b: Tri, c: Tri)
    requires Refines(a, b)
    ensures Refines(op.Apply(a, c), op.Apply(b, c))
  {
  }

  /** What an operand contradicts lies below the operand's negation (above it, for ||). */
  lemma ContradictionBounds(v: Valuation, op: Op, e1: Expr, e2: Expr)
    requires v.WellFormed() && Contradicts(op, e1, e2)
    ensures op.Apply(Value(v, e2), Negate(Value(v, e1))) == Value(v, e2)
  {
    TransformKeepsValue(v, Not(e1));
    ExtractEqTopSplits(v, op, Transform(Not(e1)), e2);
  }

  lemma DecidedRefines(v: Valuation, op: Op, x: Tri, e: Tri, ro: Tri, re: Tri, t: Tri)
    requires v.WellFormed()
    requires t == op.Apply(x, ro) && t == op.Apply(e, re) && op.Apply(e, Negate(x)) == e
    ensures Refines(t, op.Apply(v.tri(op.Zero()), ro))
  {
  }

  /** expr_eliminate_dups2 never changes a tree whose value is y or n: it can only decide m. */
  lemma {:induction false} Dups2Refines(v: Valuation, op: Op, t: Expr, p1: Path, p2: Path)
    requires v.WellFormed() && t.HasOp(op) && OnSpine(op, t, p1) && OnSpine(op, t, p2)
    ensures Refines(Value(v, t), Value(v, Dups2(op, t, p1, p2).0))
    decreases Size(t), SpineSize(op, At(op, t, p1)) + SpineSize(op, At(op, t, p2)), 1
  {
    var e1 := At(op, t, p1);
    if e1.HasOp(op) {
      StepDown(op, t, p1, L);
      StepDown(op, t, p1, R);
      var t1 := Dups2(op, t, p1 + [L], p2).0;
      SameSpineSlots(op, t, t1, p1 + [R]);
      SameSpineSlots(op, t, t1, p2);
      Dups2Refines(v, op, t, p1 + [L], p2);
      Dups2Refines(v, op, t1, p1 + [R], p2);
    } else if At(op, t, p2).HasOp(op) {
      StepDown(op, t, p2, L);
      StepDown(op, t, p2, R);
      var t1 := Dups2(op, t, p1, p2 + [L]).0;
      SameSpineSlots(op, t, t1, p2 + [R]);
      SameSpineSlots(op, t, t1, p1);
      var t2 := Dups2(op, t1, p1, p2 + [R]).0;
      Dups2Refines(v, op, t, p1, p2 + [L]);
      Dups2Refines(v, op, t1, p1, p2 + [R]);
      SameSpineTransitive(op, t, t1, t2);
      SameSpineSlots(op, t, t2, p1);
      SameSpineSlots(op, t, t2, p2);
      Dups2OperandRefines(v, op, t2, p1, p2);
    } else {
      Dups2OperandRefines(v, op, t, p1, p2);
    }
  }

  lemma {:induction false} Dups2OperandRefines(v: Valuation, op: Op, t: Expr, p1: Path, p2: Path)
    requires v.WellFormed() && t.HasOp(op) && IsOperand(op, t, p1) && OnSpine(op, t, p2)
    ensures Refines(Value(v, t), Value(v, Dups2Operand(op, t, p1, p2).0))
    decreases Size(t), SpineSize(op, At(op, t, p1)) + SpineSize(op, At(op, t, p2)), 0
  {
    var e1 := At(op, t, p1);
    if p1 != p2 && e1.Bin? {
      PutOperand(op, t, p1, e1);
      var (x1, n1) := Dups2(e1.op, e1, [], []);
      Dups2Refines(v, e1.op, e1, [], []);
      PutOperand(op, t, p1, x1);
      ValueAt(v, op, t, p1, x1);
      ApplyRefines(op, Value(v, e1), Value(v, x1), Rest(v, op, t, p1));
      var t1 := Put(op, t, p1, x1);
      SameSpineSlots(op, t, t1, p2);
      if Contradicts(op, x1, At(op, t1, p2)) {
        ContradictionDecides(v, op, t1, p1, p2);
      }
    }
  }

  /** A decision gives the tree the value that decides its operator, so it changes the value exactly when that
      was m. */
  lemma ContradictionDecides(v: Valuation, op: Op, t: Expr, p1: Path, p2: Path)
    requires v.WellFormed() && IsOperand(op, t, p1) && OnSpine(op, t, p2)
    requires Contradicts(op, At(op, t, p1), At(op, t, p2))
    ensures Refines(Value(v, t), Value(v, Put(op, t, p1, Sym(op.Zero()))))
    ensures Value(v, Put(op, t, p1, Sym(op.Zero()))) == v.tri(op.Zero())
    ensures Value(v, Put(op, t, p1, Sym(op.Zero()))) != Value(v, t) <==> Value(v, t) == MOD
  {
    var x, e := At(op, t, p1), At(op, t, p2);
    ContradictionBounds(v, op, x, e);
    ValueAt(v, op, t, p1, Sym(op.Zero()));
    ValueAt(v, op, t, p2, e);
    DecidedRefines(v, op, Value(v, x), Value(v, e), Rest(v, op, t, p1), Rest(v, op, t, p2), Value(v, t));
  }

  /** Some operand is the constant that decides the operator. */
  predicate Decided(op: Op, t: Expr) {
    if t.HasOp(op) then Decided(op, t.left) || Decided(op, t.right) else t == Sym(op.Zero())
  }

  lemma {:induction false} DecidedValue(v: Valuation, op: Op, t: Expr)
    requires v.WellFormed() && Decided(op, t)
    ensures Value(v, t) == v.tri(op.Zero())
  {
    if t.HasOp(op) {
      if Decided(op, t.left) {
        DecidedValue(v, op, t.left);
      } else {
        DecidedValue(v, op, t.right);
      }
    }
  }

  lemma {:induction false} PutDecides(op: Op, t: Expr, p: Path, x: Expr)
    requires IsOperand(op, t, p) && !x.HasOp(op)
    ensures x == Sym(op.Zero()) ==> Decided(op, Put(op, t, p, x))
    ensures At(op, t, p) != Sym(op.Zero()) && Decided(op, t) ==> Decided(op, Put(op, t, p, x))
  {
    if p != [] {
      PutDecides(op, Child(t, p[0]), p[1..], x);
    }
  }

  /** What one call of expr_eliminate_dups2 has decided stays decided ... */
  lemma {:induction false} Dups2KeepsDecided(op: Op, t: Expr, p1: Path, p2: Path)
    requires t.HasOp(op) && OnSpine(op, t, p1) && OnSpine(op, t, p2) && Decided(op, t)
    ensures Decided(op, Dups2(op, t, p1, p2).0)
    decreases SpineSize(op, At(op, t, p1)) + SpineSize(op, At(op, t, p2)), 1
  {
    var e1 := At(op, t, p1);
    if e1.HasOp(op) {
      StepDown(op, t, p1, L);
      StepDown(op, t, p1, R);
      var t1 := Dups2(op, t, p1 + [L], p2).0;
      SameSpineSlots(op, t, t1, p1 + [R]);
      SameSpineSlots(op, t, t1, p2);
      Dups2KeepsDecided(op, t, p1 + [L], p2);
      Dups2KeepsDecided(op, t1, p1 + [R], p2);
    } else if At(op, t, p2).HasOp(op) {
      StepDown(op, t, p2, L);
      StepDown(op, t, p2, R);
      var t1 := Dups2(op, t, p1, p2 + [L]).0;
      SameSpineSlots(op, t, t1, p2 + [R]);
      SameSpineSlots(op, t, t1, p1);
      var t2 := Dups2(op, t1, p1, p2 + [R]).0;
      Dups2KeepsDecided(op, t, p1, p2 + [L]);
      Dups2KeepsDecided(op, t1, p1, p2 + [R]);
      SameSpineTransitive(op, t, t1, t2);
      SameSpineSlots(op, t, t2, p1);
      SameSpineSlots(op, t, t2, p2);
      Dups2OperandDecides(op, t2, p1, p2);
    } else {
      Dups2OperandDecides(op, t, p1, p2);
    }
  }

  /** ... and where an operand contradicts what it is compared with, the tree is decided. */
  lemma Dups2OperandDecides(op: Op, t: Expr, p1: Path, p2: Path)
    requires t.HasOp(op) && IsOperand(op, t, p1) && OnSpine(op, t, p2)
    ensures Decided(op, t) ==> Decided(op, Dups2Operand(op, t, p1, p2).0)
    ensures var e1 := At(op, t, p1);
            p1 != p2 && e1.Bin? && Dups2(e1.op, e1, [], []).1 == 0 && Contradicts(op, e1, At(op, t, p2)) ==>
              Decided(op, Dups2Operand(op, t, p1, p2).0)
  {
    var e1 := At(op, t, p1);
    if p1 != p2 && e1.Bin? {
      PutOperand(op, t, p1, e1);
      var x1 := Dups2(e1.op, e1, [], []).0;
      PutOperand(op, t, p1, x1);
      PutDecides(op, t, p1, x1);
      PutDecides(op, Put(op, t, p1, x1), p1, Sym(op.Zero()));
    }
  }

  // ---------- when it decides nothing, told from the tree ----------

  /** No operand at or below p1 contradicts what it is compared with at or below p2, nor does any operand of an
      operand, and so on downwards. */
  predicate Quiet(op: Op, t: Expr, p1: Path, p2: Path)
    requires t.HasOp(op) && OnSpine(op, t, p1) && OnSpine(op, t, p2)
    decreases Size(t), SpineSize(op, At(op, t, p1)) + SpineSize(op, At(op, t, p2)), 1
  {
    if At(op, t, p1).HasOp(op) then
      StepDown(op, t, p1, L);
      StepDown(op, t, p1, R);
      Quiet(op, t, p1 + [L], p2) && Quiet(op, t, p1 + [R], p2)
    else if At(op, t, p2).HasOp(op) then
      StepDown(op, t, p2, L);
      StepDown(op, t, p2, R);
      Quiet(op, t, p1, p2 + [L]) && Quiet(op, t, p1, p2 + [R]) && QuietOperand(op, t, p1, p2)
    else
      QuietOperand(op, t, p1, p2)
  }

  predicate QuietOperand(op: Op, t: Expr, p1: Path, p2: Path)
    requires t.HasOp(op) && IsOperand(op, t, p1) && OnSpine(op, t, p2)
    decreases Size(t), SpineSize(op, At(op, t, p1)) + SpineSize(op, At(op, t, p2)), 0
  {
    var e1 := At(op, t, p1);
    PutOperand(op, t, p1, e1);
    p1 == p2 || !e1.Bin? || (Quiet(e1.op, e1, [], []) && !Contradicts(op, e1, At(op, t, p2)))
  }

  /** The second half counts no change, if and only if the tree it is given is quiet. */
  lemma {:induction false} QuietIsIdle(op: Op, t: Expr, p1: Path, p2: Path)
    requires t.HasOp(op) && OnSpine(op, t, p1) && OnSpine(op, t, p2)
    ensures Dups2(op, t, p1, p2).1 == 0 <==> Quiet(op, t, p1, p2)
    decreases Size(t), SpineSize(op, At(op, t, p1)) + SpineSize(op, At(op, t, p2)), 1
  {
    if At(op, t, p1).HasOp(op) {
      StepDown(op, t, p1, L);
      StepDown(op, t, p1, R);
      QuietIsIdle(op, t, p1 + [L], p2);
      QuietIsIdle(op, t, p1 + [R], p2);
    } else if At(op, t, p2).HasOp(op) {
      StepDown(op, t, p2, L);
      StepDown(op, t, p2, R);
      QuietIsIdle(op, t, p1, p2 + [L]);
      QuietIsIdle(op, t, p1, p2 + [R]);
      QuietOperandIsIdle(op, t, p1, p2);
    } else {
      QuietOperandIsIdle(op, t, p1, p2);
    }
  }

  lemma {:induction false} QuietOperandIsIdle(op: Op, t: Expr, p1: Path, p2: Path)
    requires t.HasOp(op) && IsOperand(op, t, p1) && OnSpine(op, t, p2)
    ensures Dups2Operand(op, t, p1, p2).1 == 0 <==> QuietOperand(op, t, p1, p2)
    decreases Size(t), SpineSize(op, At(op, t, p1)) + SpineSize(op, At(op, t, p2)), 0
  {
    var e1 := At(op, t, p1);
    if p1 != p2 && e1.Bin? {
      PutOperand(op, t, p1, e1);
      QuietIsIdle(e1.op, e1, [], []);
    }
  }

  /** Every operand is quiet in itself; only operands of the tree itself may contradict each other. */
  predicate QuietWithin(op: Op, t: Expr) {
    if t.HasOp(op) then QuietWithin(op, t.left) && QuietWithin(op, t.right) else t.Bin? ==> Quiet(t.op, t, [], [])
  }

  lemma {:induction false} QuietWithinAt(op: Op, t: Expr, p: Path)
    requires QuietWithin(op, t) && IsOperand(op, t, p)
    ensures var e := At(op, t, p); e.Bin? ==> Quiet(e.op, e, [], [])
  {
    if p != [] {
      QuietWithinAt(op, Child(t, p[0]), p[1..]);
    }
  }

  /** Then a call that counts a change leaves the tree decided. */
  lemma {:induction false} DecidedUnlessQuiet(op: Op, t: Expr, p1: Path, p2: Path)
    requires t.HasOp(op) && OnSpine(op, t, p1) && OnSpine(op, t, p2) && QuietWithin(op, t)
    ensures Dups2(op, t, p1, p2).1 > 0 ==> Decided(op, Dups2(op, t, p1, p2).0)
    decreases SpineSize(op, At(op, t, p1)) + SpineSize(op, At(op, t, p2))
  {
    if At(op, t, p1).HasOp(op) {
      StepDown(op, t, p1, L);
      StepDown(op, t, p1, R);
      var (t1, n1) := Dups2(op, t, p1 + [L], p2);
      SameSpineSlots(op, t, t1, p1 + [R]);
      SameSpineSlots(op, t, t1, p2);
      DecidedUnlessQuiet(op, t, p1 + [L], p2);
      if n1 > 0 {
        Dups2KeepsDecided(op, t1, p1 + [R], p2);
      } else {
        DecidedUnlessQuiet(op, t, p1 + [R], p2);
      }
    } else if At(op, t, p2).HasOp(op) {
      DecidedInSecondSlot(op, t, p1, p2);
    } else {
      DecidedAtOperand(op, t, p1, p2);
    }
  }

  lemma {:induction false} DecidedInSecondSlot(op: Op, t: Expr, p1: Path, p2: Path)
    requires t.HasOp(op) && IsOperand(op, t, p1) && OnSpine(op, t, p2) && QuietWithin(op, t) && At(op, t, p2).HasOp(op)
    ensures Dups2(op, t, p1, p2).1 > 0 ==> Decided(op, Dups2(op, t, p1, p2).0)
    decreases SpineSize(op, At(op, t, p1)) + SpineSize(op, At(op, t, p2)), 0
  {
    StepDown(op, t, p2, L);
    StepDown(op, t, p2, R);
    var (t1, n1) := Dups2(op, t, p1, p2 + [L]);
    SameSpineSlots(op, t, t1, p2 + [R]);
    SameSpineSlots(op, t, t1, p1);
    var (t2, n2) := Dups2(op, t1, p1, p2 + [R]);
    SameSpineTransitive(op, t, t1, t2);
    SameSpineSlots(op, t, t2, p1);
    SameSpineSlots(op, t, t2, p2);
    DecidedUnlessQuiet(op, t, p1, p2 + [L]);
    if n1 > 0 {
      Dups2KeepsDecided(op, t1, p1, p2 + [R]);
    } else {
      DecidedUnlessQuiet(op, t, p1, p2 + [R]);
    }
    if n1 + n2 > 0 {
      Dups2OperandDecides(op, t2, p1, p2);
    } else {
      DecidedAtOperand(op, t, p1, p2);
    }
  }

  lemma DecidedAtOperand(op: Op, t: Expr, p1: Path, p2: Path)
    requires t.HasOp(op) && IsOperand(op, t, p1) && OnSpine(op, t, p2) && QuietWithin(op, t)
    ensures Dups2Operand(op, t, p1, p2).1 > 0 ==> Decided(op, Dups2Operand(op, t, p1, p2).0)
  {
    var e1 := At(op, t, p1);
    QuietWithinAt(op, t, p1);
    if p1 != p2 && e1.Bin? {
      QuietIsIdle(e1.op, e1, [], []);
      Dups2OperandDecides(op, t, p1, p2);
      PutOperand(op, t, p1, e1);
    }
  }

  /** expr_eliminate_dups2 changes the value, if and only if that is m and two operands contradict each other. */
  lemma Dups2ChangesExactly(v: Valuation, t: Expr)
    requires v.WellFormed() && t.Bin? && QuietWithin(t.op, t)
    ensures Value(v, Dups2(t.op, t, [], []).0) != Value(v, t) <==> Value(v, t) == MOD && !Quiet(t.op, t, [], [])
  {
    var t' := Dups2(t.op, t, [], []).0;
    QuietIsIdle(t.op, t, [], []);
    DecidedUnlessQuiet(t.op, t, [], []);
    Dups2Refines(v, t.op, t, [], []);
    if !Quiet(t.op, t, [], []) {
      DecidedValue(v, t.op, t');
    }
  }

  // ---------- expr_eliminate_dups ----------

  /** One round of the loop: both halves on the whole tree, aliased with itself. */
  function Pass(e: Expr): (r: (Expr, nat))
    requires e.Bin?
    ensures Size(r.0) <= Size(e)
    ensures if r.1 == 0 then r.0 == e else !YnFree(r.0)
  {
    var (t1, n1) := Dups1(e.op, e, [], []);
    var (t2, n2) := Dups2(e.op, t1, [], []);
    (t2, n1 + n2)
  }

  /** What the loop computes. Every round that counts a change leaves a constant behind, and
      removing it makes the tree strictly smaller. */
  function EliminateDups(e: Expr): Expr
    decreases Size(e)
  {
    if !e.Bin? then e
    else
      var (t, n) := Pass(e);
      if n == 0 then t
      else
        EliminateYnShrinks(t);
        EliminateDups(EliminateYn(t))
  }

  /** The loop itself: transCount counts the changes of one round. */
  method EliminateDuplicates(e: Expr) returns (r: Expr)
    ensures r == EliminateDups(e)
  {
    hide Dups1, Dups2, EliminateYn;
    r := e;
    while true
      invariant EliminateDups(r) == EliminateDups(e)
      decreases Size(r)
    {
      var transCount := 0;
      if r.Bin? {
        var (t, n) := Pass(r);
        EliminateYnShrinks(t);
        r, transCount := t, n;
      }
      if transCount == 0 {
        break;
      }
      r := EliminateYn(r);
    }
  }

  /** Every decided value survives, under every valuation. */
  lemma {:induction false} EliminateDupsRefines(v: Valuation, e: Expr)
    requires v.WellFormed()
    ensures Refines(Value(v, e), Value(v, EliminateDups(e)))
    decreases Size(e)
  {
    if e.Bin? {
      var (t1, n1) := Dups1(e.op, e, [], []);
      var (t, n) := Pass(e);
      Dups1KeepsValue(v, e.op, e, [], []);
      Dups2Refines(v, e.op, t1, [], []);
      if n > 0 {
        EliminateYnKeepsValue(v, t);
        EliminateYnShrinks(t);
        EliminateDupsRefines(v, EliminateYn(t));
      }
    }
  }

  /** Without an m-valued operand, expr_eliminate_dups is exact. */
  lemma EliminateDupsKeepsValue(v: Valuation, e: Expr)
    requires v.WellFormed() && TwoValued(v, e)
    ensures Value(v, EliminateDups(e)) == Value(v, e)
  {
    TwoValuedIsDefinite(v, e);
    EliminateDupsRefines(v, e);
  }

  // ---------- no duplicate is left ----------

  /** The operands of op in e, from left to right. */
  function OperandList(op: Op, e: Expr): (es: seq<Expr>)
    ensures es != []
  {
    if e.HasOp(op) then OperandList(op, e.left) + OperandList(op, e.right) else [e]
  }

  /** Two operands of which one is too many: they are equal up to the order and the grouping of && and ||, or
      can be merged. */
  predicate Redundant(op: Op, a: Expr, b: Expr) {
    (ConstantFree(a) && ConstantFree(b) && ShapeOf(a) == ShapeOf(b)) || Mergeable(op, a, b) || Mergeable(op, b, a)
  }

  ghost predicate NoPairRedundant(op: Op, es: seq<Expr>) {
    forall i, j :: 0 <= i < |es| && 0 <= j < |es| && i != j ==> !Redundant(op, es[i], es[j])
  }

  /** At every && and || outside negations no operand is redundant beside another one. */
  ghost predicate Irredundant(e: Expr)
    decreases e, 0
  {
    e.Bin? ==>
      && NoPairRedundant(e.op, OperandList(e.op, e))
      && OperandsIrredundant(e.op, e.left) && OperandsIrredundant(e.op, e.right)
  }

  ghost predicate OperandsIrredundant(op: Op, e: Expr)
    decreases e, 1
  {
    if e.HasOp(op) then OperandsIrredundant(op, e.left) && OperandsIrredundant(op, e.right) else Irredundant(e)
  }

  /** The slot of an operand. */
  function SlotOf(op: Op, t: Expr, i: nat): (p: Path)
    requires i < |OperandList(op, t)|
    ensures IsOperand(op, t, p) && At(op, t, p) == OperandList(op, t)[i]
  {
    if !t.HasOp(op) then []
    else if i < |OperandList(op, t.left)| then
      var p := SlotOf(op, t.left, i);
      assert ([L] + p)[1..] == p;
      [L] + p
    else
      var p := SlotOf(op, t.right, i - |OperandList(op, t.left)|);
      assert ([R] + p)[1..] == p;
      [R] + p
  }

  lemma {:induction false} SlotsDiffer(op: Op, t: Expr, i: nat, j: nat)
    requires i < j < |OperandList(op, t)|
    ensures SlotOf(op, t, i) != SlotOf(op, t, j)
  {
    var n := |OperandList(op, t.left)|;
    if j < n {
      SlotsDiffer(op, t.left, i, j);
      assert SlotOf(op, t, i)[1..] == SlotOf(op, t.left, i) && SlotOf(op, t, j)[1..] == SlotOf(op, t.left, j);
    } else if i >= n {
      SlotsDiffer(op, t.right, i - n, j - n);
      assert SlotOf(op, t, i)[1..] == SlotOf(op, t.right, i - n) && SlotOf(op, t, j)[1..] == SlotOf(op, t.right, j - n);
    }
  }

  /** Where the first half counts no change, it has found no pair to join. */
  lemma {:induction false} IdleJoinsNothing(op: Op, t: Expr, p1: Path, p2: Path, p: Path, q: Path)
    requires t.HasOp(op) && OnSpine(op, t, p1) && OnSpine(op, t, p2) && Dups1(op, t, p1, p2).1 == 0
    requires IsOperand(op, t, p) && IsOperand(op, t, q) && p1 <= p && p2 <= q && p != q
    ensures Join(op, At(op, t, p), At(op, t, q)) == None
    ensures var e := At(op, t, p); e.Bin? ==> Dups1(e.op, e, [], []).1 == 0
    decreases SpineSize(op, At(op, t, p1)) + SpineSize(op, At(op, t, p2))
  {
    if At(op, t, p1).HasOp(op) {
      StepDown(op, t, p1, L);
      StepDown(op, t, p1, R);
      PrefixGrows(p1, p);
      if p[|p1|] == L {
        IdleJoinsNothing(op, t, p1 + [L], p2, p, q);
      } else {
        IdleJoinsNothing(op, t, p1 + [R], p2, p, q);
      }
    } else if At(op, t, p2).HasOp(op) {
      StepDown(op, t, p2, L);
      StepDown(op, t, p2, R);
      PrefixGrows(p2, q);
      OperandEndsPath(op, t, p1, p);
      if q[|p2|] == L {
        IdleJoinsNothing(op, t, p1, p2 + [L], p, q);
      } else {
        IdleJoinsNothing(op, t, p1, p2 + [R], p, q);
      }
    } else {
      OperandEndsPath(op, t, p1, p);
      OperandEndsPath(op, t, p2, q);
      PutOperand(op, t, p, At(op, t, p));
    }
  }

  lemma PrefixGrows(p: Path, q: Path)
    requires p <= q && p != q
    ensures |p| < |q| && p + [q[|p|]] <= q
  {
    assert p == q[..|p|] && q == q[..|q|];
  }

  /** There is no slot below an operand. */
  lemma {:induction false} OperandEndsPath(op: Op, t: Expr, p: Path, q: Path)
    requires IsOperand(op, t, p) && OnSpine(op, t, q) && p <= q
    ensures p == q
  {
    if p != [] {
      assert p[0] == q[0] && p[1..] <= q[1..];
      OperandEndsPath(op, Child(t, p[0]), p[1..], q[1..]);
      assert p == [p[0]] + p[1..] && q == [q[0]] + q[1..];
    }
  }

  lemma RedundantIsJoined(op: Op, a: Expr, b: Expr)
    requires Redundant(op, a, b)
    ensures Join(op, a, b).Some?
  {
    JoinedExactly(op, a, b);
    if ConstantFree(a) && ConstantFree(b) {
      ExprEqExact(a, b);
    }
  }

  lemma {:induction false} IdleIsIrredundant(t: Expr)
    requires t.Bin? && Dups1(t.op, t, [], []).1 == 0
    ensures Irredundant(t)
    decreases Size(t), 2
  {
    hide Dups1, Redundant, Join;
    var op, es := t.op, OperandList(t.op, t);
    forall i, j | 0 <= i < |es| && 0 <= j < |es| && i != j ensures !Redundant(op, es[i], es[j]) {
      SlotsDiffer(op, t, if i < j then i else j, if i < j then j else i);
      IdleJoinsNothing(op, t, [], [], SlotOf(op, t, i), SlotOf(op, t, j));
      if Redundant(op, es[i], es[j]) {
        RedundantIsJoined(op, es[i], es[j]);
      }
    }
    assert [] + [L] == [L] && [] + [R] == [R];
    StepDown(op, t, [], L);
    StepDown(op, t, [], R);
    IdleBelow(op, t, [L]);
    IdleBelow(op, t, [R]);
  }

  /** The operands at or below the slot p. */
  lemma {:induction false} IdleBelow(op: Op, t: Expr, p: Path)
    requires t.HasOp(op) && OnSpine(op, t, p) && p != [] && Dups1(op, t, [], []).1 == 0
    ensures OperandsIrredundant(op, At(op, t, p))
    decreases Size(t), 1, SpineSize(op, At(op, t, p))
  {
    var e := At(op, t, p);
    if e.HasOp(op) {
      StepDown(op, t, p, L);
      StepDown(op, t, p, R);
      IdleBelow(op, t, p + [L]);
      IdleBelow(op, t, p + [R]);
    } else if e.Bin? {
      var q := SomeOtherSlot(op, t, p);
      IdleJoinsNothing(op, t, [], [], p, q);
      PutOperand(op, t, p, e);
      IdleIsIrredundant(e);
    }
  }

  /** Every operand has another one beside it. */
  lemma SomeOtherSlot(op: Op, t: Expr, p: Path) returns (q: Path)
    requires t.HasOp(op) && IsOperand(op, t, p)
    ensures IsOperand(op, t, q) && q != p
  {
    var side := Other(p[0]);
    var below := SlotOf(op, Child(t, side), 0);
    q := [side] + below;
    assert q[1..] == below;
  }

  /** What expr_eliminate_dups leaves holds no two operands that are equal or can be merged, at any depth outside
      negations. */
  lemma {:induction false} EliminateDupsIsIrredundant(e: Expr)
    ensures Irredundant(EliminateDups(e))
    decreases Size(e)
  {
    if e.Bin? {
      var (t, n) := Pass(e);
      if n > 0 {
        EliminateYnShrinks(t);
        EliminateDupsIsIrredundant(EliminateYn(t));
      } else {
        IdleIsIrredundant(e);
      }
    }
  }

  // ---------- no contradiction is left ----------

  /** All of the negation of a are operands of e, so the two cannot both be y (or, below ||, both be n). */
  predicate Opposes(op: Op, a: Expr, e: Expr) {
    var n := Transform(Not(a));
    a.Bin? && ConstantFree(n) && ConstantFree(e) && !n.IsYesNo() && !e.IsYesNo() && Operands(op, n) <= Operands(op, e)
  }

  lemma OpposingContradicts(op: Op, a: Expr, e: Expr)
    requires Opposes(op, a, e)
    ensures Contradicts(op, a, e)
  {
    ExtractedExactly(op, Transform(Not(a)), e);
  }

  lemma {:induction false} QuietMeans(op: Op, t: Expr, p1: Path, p2: Path, p: Path)
    requires t.HasOp(op) && OnSpine(op, t, p1) && OnSpine(op, t, p2) && Quiet(op, t, p1, p2)
    requires IsOperand(op, t, p) && p1 <= p && p != p2
    ensures !Opposes(op, At(op, t, p), At(op, t, p2))
    decreases SpineSize(op, At(op, t, p1)) + SpineSize(op, At(op, t, p2))
  {
    if At(op, t, p1).HasOp(op) {
      StepDown(op, t, p1, L);
      StepDown(op, t, p1, R);
      PrefixGrows(p1, p);
      if p[|p1|] == L {
        QuietMeans(op, t, p1 + [L], p2, p);
      } else {
        QuietMeans(op, t, p1 + [R], p2, p);
      }
    } else {
      OperandEndsPath(op, t, p1, p);
      assert QuietOperand(op, t, p, p2);
      if Opposes(op, At(op, t, p), At(op, t, p2)) {
        OpposingContradicts(op, At(op, t, p), At(op, t, p2));
      }
    }
  }

  /** In what expr_eliminate_dups leaves no operand is opposed by the others. */
  lemma {:induction false} EliminateDupsIsConsistent(e: Expr, i: nat)
    requires var r := EliminateDups(e); r.Bin? && i < |OperandList(r.op, r)|
    ensures var r := EliminateDups(e); !Opposes(r.op, OperandList(r.op, r)[i], r)
    decreases Size(e)
  {
    var (t, n) := Pass(e);
    if n > 0 {
      EliminateYnShrinks(t);
      EliminateDupsIsConsistent(EliminateYn(t), i);
    } else {
      QuietIsIdle(e.op, e, [], []);
      QuietMeans(e.op, e, [], [], SlotOf(e.op, e, i));
    }
  }

  // ---------- when a value changes ----------

  /** In every round, what expr_eliminate_dups1 has left is quiet. */
  predicate NothingIsDecided(e: Expr)
    decreases Size(e)
  {
    e.Bin? ==>
      var (t, n) := Dups1(e.op, e, [], []);
      Quiet(e.op, t, [], []) && (n > 0 ==> (EliminateYnShrinks(t); NothingIsDecided(EliminateYn(t))))
  }

  /** Then the value is kept under every valuation, whatever is m. */
  lemma {:induction false} UndecidedKeepsValue(v: Valuation, e: Expr)
    requires v.WellFormed() && NothingIsDecided(e)
    ensures Value(v, EliminateDups(e)) == Value(v, e)
    decreases Size(e)
  {
    if e.Bin? {
      var (t, n) := Dups1(e.op, e, [], []);
      Dups1KeepsValue(v, e.op, e, [], []);
      QuietIsIdle(e.op, t, [], []);
      if n > 0 {
        EliminateYnKeepsValue(v, t);
        EliminateYnShrinks(t);
        UndecidedKeepsValue(v, EliminateYn(t));
      }
    }
  }

  /** Up to the round in which operands of the root contradict each other, if there is one, operands are quiet in
      themselves. */
  predicate DecidedAtRootOnly(e: Expr)
    decreases Size(e)
  {
    e.Bin? ==>
      var (t, n) := Dups1(e.op, e, [], []);
      && QuietWithin(e.op, t)
      && (Quiet(e.op, t, [], []) && n > 0 ==> (EliminateYnShrinks(t); DecidedAtRootOnly(EliminateYn(t))))
  }

  /** Then expr_eliminate_dups changes the value, if and only if that is m and two operands of the root contradict
      each other in some round. */
  lemma {:induction false} EliminateDupsChangesExactly(v: Valuation, e: Expr)
    requires v.WellFormed() && DecidedAtRootOnly(e)
    ensures Value(v, EliminateDups(e)) != Value(v, e) <==> Value(v, e) == MOD && !NothingIsDecided(e)
    decreases Size(e)
  {
    if e.Bin? {
      var (t, n) := Dups1(e.op, e, [], []);
      Dups1KeepsValue(v, e.op, e, [], []);
      QuietIsIdle(e.op, t, [], []);
      EliminateYnShrinks(t);
      if !Quiet(e.op, t, [], []) {
        DecisionSettles(v, e);
      } else if n > 0 {
        EliminateYnKeepsValue(v, t);
        EliminateDupsChangesExactly(v, EliminateYn(t));
      }
    }
  }

  /** A round in which operands of the root contradict each other settles the value. */
  lemma DecisionSettles(v: Valuation, e: Expr)
    requires v.WellFormed() && e.Bin?
    requires var t := Dups1(e.op, e, [], []).0; QuietWithin(e.op, t) && !Quiet(e.op, t, [], [])
    ensures Value(v, EliminateDups(e)) == v.tri(e.op.Zero())
    ensures Value(v, EliminateDups(e)) != Value(v, e) <==> Value(v, e) == MOD
  {
    var t := Dups1(e.op, e, [], []).0;
    var t' := Dups2(e.op, t, [], []).0;
    QuietIsIdle(e.op, t, [], []);
    DecidedUnlessQuiet(e.op, t, [], []);
    DecidedValue(v, e.op, t');
    EliminateYnKeepsValue(v, t');
    EliminateYnShrinks(t');
    EliminateDupsRefines(v, EliminateYn(t'));
    EliminateDupsRefines(v, e);
  }
}
