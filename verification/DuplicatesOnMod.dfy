/** Why expr_eliminate_dups is exact only on decided values: a worked counterexample. */
module DuplicatesOnMod {
  import opened Tristates
  import opened Exprs
  import opened Simplify
  import opened Equality
  import opened Duplicates

  /** `(A || B) && (!A && !B)` */
  function Contradiction(a: Symbol, b: Symbol): Expr {
    Bin(AndOp, Bin(OrOp, Sym(a), Sym(b)), Bin(AndOp, Not(Sym(a)), Not(Sym(b))))
  }

  /** The slots of a two-operand tree. */
  lemma SlotsOfTwo(op: Op, x: Expr, y: Expr)
    ensures var t := Bin(op, x, y);
            && OnSpine(op, t, [L]) && At(op, t, [L]) == x
            && OnSpine(op, t, [R]) && At(op, t, [R]) == y
            && (forall w :: Put(op, t, [L], w) == Bin(op, w, y))
            && (forall w :: Put(op, t, [R], w) == Bin(op, x, w))
    ensures [] + [L] == [L] && [] + [R] == [R]
  {
    assert [L][1..] == [] && [R][1..] == [];
    assert Child(Bin(op, x, y), L) == x && Child(Bin(op, x, y), R) == y;
    assert At(op, x, []) == x && At(op, y, []) == y;
  }

  /** The slots of `x op (y op z)`. */
  lemma SlotsOfThree(op: Op, x: Expr, y: Expr, z: Expr)
    ensures var t := Bin(op, x, Bin(op, y, z));
            && OnSpine(op, t, [L]) && At(op, t, [L]) == x
            && OnSpine(op, t, [R]) && At(op, t, [R]) == Bin(op, y, z)
            && OnSpine(op, t, [R, L]) && At(op, t, [R, L]) == y
            && OnSpine(op, t, [R, R]) && At(op, t, [R, R]) == z
            && Put(op, t, [L], x) == t && Put(op, t, [R, L], y) == t && Put(op, t, [R, R], z) == t
            && Put(op, t, [L], Sym(op.Zero())) == Bin(op, Sym(op.Zero()), Bin(op, y, z))
    ensures [] + [L] == [L] && [] + [R] == [R] && [R] + [L] == [R, L] && [R] + [R] == [R, R]
  {
    SlotsOfTwo(op, x, Bin(op, y, z));
    SlotsOfTwo(op, y, z);
    assert [R, L][1..] == [L] && [R, R][1..] == [R];
    assert Child(Bin(op, x, Bin(op, y, z)), R) == Bin(op, y, z);
  }

  // One step of each recursion, when it finds nothing.

  lemma Idle1(op: Op, t: Expr, p: Path, q: Path)
    requires t.HasOp(op) && IsOperand(op, t, p) && IsOperand(op, t, q)
    requires var e := At(op, t, p);
             p == q || (Join(op, e, At(op, t, q)) == None && (e.Bin? ==> Dups1(e.op, e, [], []) == (e, 0)))
    ensures Dups1(op, t, p, q) == (t, 0)
  {
    PutOperand(op, t, p, At(op, t, p));
  }

  lemma IdleFirst1(op: Op, t: Expr, p: Path, q: Path)
    requires t.HasOp(op) && OnSpine(op, t, p) && OnSpine(op, t, q) && At(op, t, p).HasOp(op)
    requires OnSpine(op, t, p + [L]) && OnSpine(op, t, p + [R])
    requires Dups1(op, t, p + [L], q) == (t, 0) && Dups1(op, t, p + [R], q) == (t, 0)
    ensures Dups1(op, t, p, q) == (t, 0)
  {
  }

  lemma IdleSecond1(op: Op, t: Expr, p: Path, q: Path)
    requires t.HasOp(op) && IsOperand(op, t, p) && OnSpine(op, t, q) && At(op, t, q).HasOp(op)
    requires OnSpine(op, t, q + [L]) && OnSpine(op, t, q + [R])
    requires Dups1(op, t, p, q + [L]) == (t, 0) && Dups1(op, t, p, q + [R]) == (t, 0)
    ensures Dups1(op, t, p, q) == (t, 0)
  {
  }

  lemma Idle2(op: Op, t: Expr, p: Path, q: Path)
    requires t.HasOp(op) && IsOperand(op, t, p) && IsOperand(op, t, q)
    requires var e := At(op, t, p);
             p == q || !e.Bin? || (Dups2(e.op, e, [], []) == (e, 0) && !Contradicts(op, e, At(op, t, q)))
    ensures Dups2(op, t, p, q) == (t, 0)
  {
    PutOperand(op, t, p, At(op, t, p));
  }

  lemma IdleFirst2(op: Op, t: Expr, p: Path, q: Path)
    requires t.HasOp(op) && OnSpine(op, t, p) && OnSpine(op, t, q) && At(op, t, p).HasOp(op)
    requires OnSpine(op, t, p + [L]) && OnSpine(op, t, p + [R])
    requires Dups2(op, t, p + [L], q) == (t, 0) && Dups2(op, t, p + [R], q) == (t, 0)
    ensures Dups2(op, t, p, q) == (t, 0)
  {
  }

  /** A plain operand never gets decided itself. */
  lemma IdleSecond2(op: Op, t: Expr, p: Path, q: Path)
    requires t.HasOp(op) && IsOperand(op, t, p) && OnSpine(op, t, q) && At(op, t, q).HasOp(op)
    requires OnSpine(op, t, q + [L]) && OnSpine(op, t, q + [R]) && !At(op, t, p).Bin?
    requires Dups2(op, t, p, q + [L]) == (t, 0) && Dups2(op, t, p, q + [R]) == (t, 0)
    ensures Dups2(op, t, p, q) == (t, 0)
  {
  }

  lemma NothingInDisjunction(a: Symbol, b: Symbol)
    requires a.Type().Tristate? && b.Type().Tristate? && a != b
    ensures var o := Bin(OrOp, Sym(a), Sym(b));
            Dups1(OrOp, o, [], []) == (o, 0) && Dups2(OrOp, o, [], []) == (o, 0)
  {
    var o, l, r := Bin(OrOp, Sym(a), Sym(b)), [L], [R];
    SlotsOfTwo(OrOp, Sym(a), Sym(b));
    Idle1(OrOp, o, l, l); Idle1(OrOp, o, l, r); IdleSecond1(OrOp, o, l, []);
    Idle1(OrOp, o, r, l); Idle1(OrOp, o, r, r); IdleSecond1(OrOp, o, r, []);
    IdleFirst1(OrOp, o, [], []);
    Idle2(OrOp, o, l, l); Idle2(OrOp, o, l, r); IdleSecond2(OrOp, o, l, []);
    Idle2(OrOp, o, r, l); Idle2(OrOp, o, r, r); IdleSecond2(OrOp, o, r, []);
    IdleFirst2(OrOp, o, [], []);
  }

  lemma NothingJoined(a: Symbol, b: Symbol)
    requires a.Type().Tristate? && b.Type().Tristate? && a != b
    ensures Dups1(AndOp, Contradiction(a, b), [], []) == (Contradiction(a, b), 0)
  {
    var t := Contradiction(a, b);
    var l, r, rl, rr := [L], [R], [R, L], [R, R];
    SlotsOfThree(AndOp, t.left, t.right.left, t.right.right);
    NothingInDisjunction(a, b);
    assert !ExprEq(Not(Sym(a)), Not(Sym(b))) && !ExprEq(Not(Sym(b)), Not(Sym(a)));
    OperandIdle1(t, l); OperandIdle1(t, rl); OperandIdle1(t, rr);
    IdleFirst1(AndOp, t, r, []);
    IdleFirst1(AndOp, t, [], []);
  }

  lemma OperandIdle1(t: Expr, p: Path)
    requires t.HasOp(AndOp) && IsOperand(AndOp, t, p) && t.right.HasOp(AndOp)
    requires !t.left.HasOp(AndOp) && !t.right.left.HasOp(AndOp) && !t.right.right.HasOp(AndOp)
    requires var e := At(AndOp, t, p);
             && (p == [L] || Join(AndOp, e, t.left) == None)
             && (p == [R, L] || Join(AndOp, e, t.right.left) == None)
             && (p == [R, R] || Join(AndOp, e, t.right.right) == None)
             && (e.Bin? ==> Dups1(e.op, e, [], []) == (e, 0))
    ensures Dups1(AndOp, t, p, []) == (t, 0)
  {
    SlotsOfThree(AndOp, t.left, t.right.left, t.right.right);
    Idle1(AndOp, t, p, [L]);
    Idle1(AndOp, t, p, [R, L]);
    Idle1(AndOp, t, p, [R, R]);
    IdleSecond1(AndOp, t, p, [R]);
    IdleSecond1(AndOp, t, p, []);
  }

  lemma ExtractNegation(a: Symbol, b: Symbol)
    requires a.Type().Tristate? && b.Type().Tristate? && a != b
    ensures var na, nb := Not(Sym(a)), Not(Sym(b));
            && ExtractEqTop(AndOp, Bin(AndOp, na, nb), na).1 == nb
            && ExtractEqTop(AndOp, Bin(AndOp, na, nb), nb).1 == na
            && ExtractEqTop(AndOp, Bin(AndOp, na, nb), Bin(AndOp, na, nb)).1 == Sym(SymYes)
  {
    var na, nb, y := Not(Sym(a)), Not(Sym(b)), Sym(SymYes);
    var n := Bin(AndOp, na, nb);
    assert ExprEq(Sym(a), Sym(a)) && ExprEq(Sym(b), Sym(b)) && !ExprEq(Sym(a), Sym(b));
    assert ExprEq(na, na) && ExprEq(nb, nb) && !ExprEq(na, nb);
    assert ExtractEq(AndOp, None, na, na) == (Some(na), y, y);
    assert ExtractEq(AndOp, Some(na), nb, y) == (Some(na), nb, y);
    assert ExtractEq(AndOp, None, n, na) == (Some(na), Bin(AndOp, y, nb), y);
    assert ExtractEq(AndOp, None, na, nb) == (None, na, nb);
    assert ExtractEq(AndOp, None, nb, nb) == (Some(nb), y, y);
    assert ExtractEq(AndOp, None, n, nb) == (Some(nb), Bin(AndOp, na, y), y);
    assert ExtractEq(AndOp, Some(na), y, nb) == (Some(na), y, nb);
    assert ExtractEq(AndOp, None, na, n) == (Some(na), y, Bin(AndOp, y, nb));
    assert ExtractEq(AndOp, Some(na), nb, nb) == (Some(n), y, y);
    assert ExtractEq(AndOp, Some(na), nb, Bin(AndOp, y, nb)) == (Some(n), y, Bin(AndOp, y, y));
    assert ExtractEq(AndOp, None, n, n) == (Some(n), Bin(AndOp, y, y), Bin(AndOp, y, y));
    assert EliminateYn(na) == na && EliminateYn(nb) == nb && EliminateYn(y) == y;
    assert EliminateYn(Bin(AndOp, y, nb)) == nb && EliminateYn(Bin(AndOp, na, y)) == na;
    assert EliminateYn(Bin(AndOp, y, y)) == y;
  }

  lemma OnlyTheConjunctionContradicts(a: Symbol, b: Symbol)
    requires a.Type().Tristate? && b.Type().Tristate? && a != b
    ensures var o, na, nb := Bin(OrOp, Sym(a), Sym(b)), Not(Sym(a)), Not(Sym(b));
            && !Contradicts(AndOp, o, na) && !Contradicts(AndOp, o, nb)
            && Contradicts(AndOp, o, Bin(AndOp, na, nb))
  {
    var o, n := Bin(OrOp, Sym(a), Sym(b)), Bin(AndOp, Not(Sym(a)), Not(Sym(b)));
    assert Transform(o) == o;
    assert Transform(n) == n;
    assert Transform(Not(o)) == n;
    ExtractNegation(a, b);
  }

  /** One step of the recursion that goes on after descending into the second slot. */
  lemma DecidedInSecond2(t: Expr, t': Expr)
    requires t.HasOp(AndOp) && !t.left.HasOp(AndOp) && OnSpine(AndOp, t, [L]) && OnSpine(AndOp, t, [R])
    requires t'.HasOp(AndOp) && !t'.left.Bin? && OnSpine(AndOp, t', [L]) && SameSpine(AndOp, t, t')
    requires Dups2(AndOp, t, [L], [L]) == (t, 0) && Dups2(AndOp, t, [L], [R]) == (t', 1)
    ensures Dups2(AndOp, t, [L], []) == (t', 1)
  {
    assert [] + [L] == [L] && [] + [R] == [R] && [L][1..] == [];
    assert At(AndOp, t, [L]) == t.left && At(AndOp, t', [L]) == t'.left;
    assert Dups2Operand(AndOp, t', [L], []) == (t', 0);
  }

  lemma DisjunctionDecided(a: Symbol, b: Symbol)
    requires a.Type().Tristate? && b.Type().Tristate? && a != b
    ensures OnSpine(AndOp, Contradiction(a, b), [L])
    ensures Dups2(AndOp, Contradiction(a, b), [L], []) == (Bin(AndOp, Sym(SymNo), Contradiction(a, b).right), 1)
  {
    hide Dups2, Dups1, Contradicts;
    var t := Contradiction(a, b);
    var t' := Bin(AndOp, Sym(SymNo), t.right);
    SlotsOfThree(AndOp, t.left, t.right.left, t.right.right);
    SlotsOfThree(AndOp, Sym(SymNo), t.right.left, t.right.right);
    ComparedWithConjunction(a, b);
    Idle2(AndOp, t, [L], [L]);
    SameSpineReflexive(AndOp, t.right);
    DecidedInSecond2(t, t');
  }

  lemma ComparedWithConjunction(a: Symbol, b: Symbol)
    requires a.Type().Tristate? && b.Type().Tristate? && a != b
    ensures var t := Contradiction(a, b);
            && OnSpine(AndOp, t, [L]) && OnSpine(AndOp, t, [R])
            && Dups2(AndOp, t, [L], [R]) == (Bin(AndOp, Sym(SymNo), t.right), 1)
  {
    hide Contradicts, Dups1;
    var t := Contradiction(a, b);
    SlotsOfThree(AndOp, t.left, t.right.left, t.right.right);
    NothingInDisjunction(a, b);
    OnlyTheConjunctionContradicts(a, b);
    Idle2(AndOp, t, [L], [R, L]);
    Idle2(AndOp, t, [L], [R, R]);
    assert Dups2Operand(AndOp, t, [L], [R]) == (Bin(AndOp, Sym(SymNo), t.right), 1);
  }

  lemma NothingElseDecided(a: Symbol, b: Symbol)
    ensures var t := Bin(AndOp, Sym(SymNo), Contradiction(a, b).right);
            OnSpine(AndOp, t, [R]) && Dups2(AndOp, t, [R], []) == (t, 0)
  {
    var t := Bin(AndOp, Sym(SymNo), Contradiction(a, b).right);
    SlotsOfThree(AndOp, Sym(SymNo), t.right.left, t.right.right);
    PlainOperandIdle2(t, [R, L]);
    PlainOperandIdle2(t, [R, R]);
    IdleFirst2(AndOp, t, [R], []);
  }

  lemma PlainOperandIdle2(t: Expr, p: Path)
    requires t.HasOp(AndOp) && IsOperand(AndOp, t, p) && t.right.HasOp(AndOp)
    requires !t.left.Bin? && !t.right.left.Bin? && !t.right.right.Bin? && !At(AndOp, t, p).Bin?
    ensures Dups2(AndOp, t, p, []) == (t, 0)
  {
    SlotsOfThree(AndOp, t.left, t.right.left, t.right.right);
    Idle2(AndOp, t, p, [L]);
    Idle2(AndOp, t, p, [R, L]);
    Idle2(AndOp, t, p, [R, R]);
    IdleSecond2(AndOp, t, p, [R]);
    IdleSecond2(AndOp, t, p, []);
  }

  lemma OneRound(a: Symbol, b: Symbol)
    requires a.Type().Tristate? && b.Type().Tristate? && a != b
    ensures Pass(Contradiction(a, b)) == (Bin(AndOp, Sym(SymNo), Contradiction(a, b).right), 1)
  {
    hide Dups1;
    var t := Contradiction(a, b);
    NothingJoined(a, b);
    DisjunctionDecided(a, b);
    NothingElseDecided(a, b);
    SlotsOfTwo(AndOp, t.left, t.right);
    assert Dups2(AndOp, t, [], []) == (Bin(AndOp, Sym(SymNo), t.right), 1);
  }

  lemma ContradictionIsDecided(a: Symbol, b: Symbol)
    requires a.Type().Tristate? && b.Type().Tristate? && a != b
    ensures EliminateDups(Contradiction(a, b)) == Sym(SymNo)
  {
    hide Pass;
    var n := Contradiction(a, b).right;
    OneRound(a, b);
    assert EliminateYn(n) == n;
    assert EliminateYn(Bin(AndOp, Sym(SymNo), n)) == Sym(SymNo);
  }

  /** It is an instance of the exact condition: the disjunction is quiet in itself, and contradicts the rest. */
  lemma ContradictionIsNotQuiet(a: Symbol, b: Symbol)
    requires a.Type().Tristate? && b.Type().Tristate? && a != b
    ensures DecidedAtRootOnly(Contradiction(a, b)) && !NothingIsDecided(Contradiction(a, b))
  {
    hide Quiet, Dups1, Dups2, Contradicts;
    var t := Contradiction(a, b);
    NothingJoined(a, b);
    NothingInDisjunction(a, b);
    OneRound(a, b);
    QuietIsIdle(OrOp, t.left, [], []);
    QuietIsIdle(AndOp, t, [], []);
    assert QuietWithin(AndOp, t.left);
    assert QuietWithin(AndOp, t.right.left) && QuietWithin(AndOp, t.right.right);
    assert t.right.HasOp(AndOp) && QuietWithin(AndOp, t.right);
    assert !Quiet(AndOp, t, [], []);
  }

  /** With an m-valued operand the rewrite can lose the value: at A = B = m the tree is m,
      and it is rewritten to n. */
  lemma DecidingModChangesValue(v: Valuation, a: Symbol, b: Symbol)
    requires v.WellFormed() && a.Type().Tristate? && b.Type().Tristate? && a != b
    requires v.tri(a) == MOD && v.tri(b) == MOD
    ensures Value(v, Contradiction(a, b)) == MOD
    ensures EliminateDups(Contradiction(a, b)) == Sym(SymNo) && Value(v, Sym(SymNo)) == NO
  {
    hide EliminateDups;
    var t := Contradiction(a, b);
    ContradictionIsDecided(a, b);
    assert Value(v, t.left) == MOD && Value(v, t.right) == MOD;
  }
}
