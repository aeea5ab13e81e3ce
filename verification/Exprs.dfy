/** Dependency expressions (`struct expr`) and their meaning (`expr_calc_value`). */
module Exprs {
  import opened Tristates

  datatype SymType = Unknown | Boolean | Tristate | Int | Hex | String

  /** y, m and n are symbols of their own, so no other constant has these names. */
  type ConstName = n: string | n != "y" && n != "m" && n != "n" witness ""

  /** A symbol, identified the way a `struct symbol *` is: the three fixed constants, every
      other constant by its text, and a symbol of the configuration by its name and type
      (which is Unknown for a symbol that is mentioned but never defined). */
  datatype Symbol = SymYes | SymMod | SymNo | Const(text: ConstName) | Config(name: string, ty: SymType) {
    function Type(): SymType {
      if Config? then ty else Unknown
    }

    /** SYMBOL_CONST */
    predicate IsConst() {
      !Config?
    }

    /** One of y, m, n. */
    predicate IsFixed() {
      SymYes? || SymMod? || SymNo?
    }

    /** Bool or tristate. */
    predicate IsLogical() {
      Type().Boolean? || Type().Tristate?
    }
  }

  /** E_AND and E_OR. */
  datatype Op = AndOp | OrOp {
    function Dual(): Op {
      if AndOp? then OrOp else AndOp
    }

    function Apply(a: Tri, b: Tri): Tri {
      if AndOp? then Min(a, b) else Max(a, b)
    }

    /** The constant that leaves the other operand alone ... */
    function Unit(): Symbol {
      if AndOp? then SymYes else SymNo
    }

    /** ... and the one that decides the result. */
    function Zero(): Symbol {
      if AndOp? then SymNo else SymYes
    }
  }

  datatype Expr =
    | Sym(sym: Symbol)
    | Equal(lsym: Symbol, rsym: Symbol)
    | Unequal(lsym: Symbol, rsym: Symbol)
    | Not(arg: Expr)
    | Bin(op: Op, left: Expr, right: Expr)
  {
    predicate HasOp(o: Op) {
      Bin? && op == o
    }

    /** E_EQUAL, E_UNEQUAL or E_SYMBOL */
    predicate IsAtom() {
      Sym? || Equal? || Unequal?
    }

    predicate IsYesNo() {
      this == Sym(SymYes) || this == Sym(SymNo)
    }
  }

  /** What evaluating every symbol has produced: `curr.tri` and `sym_get_string_value`. */
  datatype Valuation = Valuation(tri: Symbol -> Tri, str: Symbol -> string) {
    /** The conditions every evaluated configuration meets. */
    ghost predicate WellFormed() {
      && tri(SymYes) == YES && tri(SymMod) == MOD && tri(SymNo) == NO
      && str(SymYes) == "y" && str(SymMod) == "m" && str(SymNo) == "n"
      && (forall s: Symbol :: s.Type().Boolean? ==> tri(s) != MOD)
      && (forall s: Symbol :: s.IsLogical() ==> str(s) == Letter(tri(s)))
      && (forall n: ConstName :: str(Const(n)) == n && tri(Const(n)) == NO)
    }
  }

  /** expr_calc_value on a non-null expression. */
  function Value(v: Valuation, e: Expr): Tri {
    match e
    case Sym(s) => v.tri(s)
    case Equal(l, r) => OfBool(v.str(l) == v.str(r))
    case Unequal(l, r) => OfBool(v.str(l) != v.str(r))
    case Not(a) => Negate(Value(v, a))
    case Bin(op, l, r) => op.Apply(Value(v, l), Value(v, r))
  }

  datatype Option<+T> = None | Some(value: T)

  /** A null expression means yes. */
  function ValueOpt(v: Valuation, e: Option<Expr>): Tri {
    if e.Some? then Value(v, e.value) else YES
  }

  /** Number of nodes. */
  function Size(e: Expr): nat {
    match e
    case Sym(_) => 1
    case Equal(_, _) => 1
    case Unequal(_, _) => 1
    case Not(a) => 1 + Size(a)
    case Bin(_, l, r) => 1 + Size(l) + Size(r)
  }

  lemma {:induction false} SizePositive(e: Expr)
    ensures Size(e) >= 1
  {
  }

  /** No symbol occurring as an operand has the value mod. */
  predicate TwoValued(v: Valuation, e: Expr) {
    match e
    case Sym(s) => v.tri(s) != MOD
    case Equal(_, _) => true
    case Unequal(_, _) => true
    case Not(a) => TwoValued(v, a)
    case Bin(_, l, r) => TwoValued(v, l) && TwoValued(v, r)
  }

  lemma {:induction false} TwoValuedIsDefinite(v: Valuation, e: Expr)
    requires TwoValued(v, e)
    ensures Value(v, e) != MOD
  {
    match e
    case Sym(_) =>
    case Equal(_, _) =>
    case Unequal(_, _) =>
    case Not(a) => TwoValuedIsDefinite(v, a);
    case Bin(_, l, r) =>
      TwoValuedIsDefinite(v, l);
      TwoValuedIsDefinite(v, r);
  }
}
