/** The expressions of support/scripts/kconfiglib.py: n-ary, with quoted constants as strings. */
module PyExprs {
  import opened Tristates
  import opened Exprs
  import opened Configuration

  /** An operand of = or !=: a Symbol or a str. */
  datatype Atom = ASym(sym: Symbol) | AStr(str: string)

  /** None is represented by the Option type. */
  datatype PyExpr =
    | PSym(sym: Symbol)
    | PStr(str: string)
    | PNot(arg: PyExpr)
    | PNary(op: Op, terms: seq<PyExpr>)
    | PRel(equal: bool, l: Atom, r: Atom)

  /** The values get_value returns. */
  type PyValues = Symbol -> string

  /** BOOL or TRISTATE; the special symbols y, m and n are tristate. */
  predicate PyLogical(s: Symbol) {
    s.IsLogical() || s.IsFixed()
  }

  function TriOf(str: string): Tri {
    if str == "y" then YES else if str == "m" then MOD else NO
  }

  /** _str_val */
  function StrVal(val: PyValues, a: Atom): string {
    if a.ASym? then val(a.sym) else a.str
  }

  /** _eval_expr_2 on an expression that is not None */
  function PyValue(val: PyValues, e: PyExpr): Tri
    decreases e, 0
  {
    match e
    case PSym(s) => if PyLogical(s) then TriOf(val(s)) else NO
    case PStr(str) => TriOf(str)
    case PNot(a) => Negate(PyValue(val, a))
    case PNary(op, ts) => PyTerms(val, op, ts)
    case PRel(equal, l, r) => OfBool((StrVal(val, l) == StrVal(val, r)) == equal)
  }

  /** The loops over the terms of && and ||, which stop at the first term that decides. */
  function PyTerms(val: PyValues, op: Op, ts: seq<PyExpr>): Tri
    decreases ts, 1
  {
    if ts == [] then (if op.AndOp? then YES else NO)
    else
      var t := PyValue(val, ts[0]);
      if t == (if op.AndOp? then NO else YES) then t else op.Apply(t, PyTerms(val, op, ts[1..]))
  }

  /** _eval_expr without modules: None is y, and m counts as y. */
  function PyEval(val: PyValues, e: Option<PyExpr>): Tri {
    Promote(if e.Some? then PyValue(val, e.value) else YES)
  }

  // ---------- symbols ----------

  function AtomSymbols(a: Atom): set<Symbol> {
    if a.ASym? then {a.sym} else {}
  }

  /** _get_expr_syms */
  function PySymbols(e: PyExpr): set<Symbol> {
    match e
    case PSym(s) => {s}
    case PStr(_) => {}
    case PNot(a) => PySymbols(a)
    case PNary(_, ts) => TermSymbols(ts)
    case PRel(_, l, r) => AtomSymbols(l) + AtomSymbols(r)
  }

  function TermSymbols(ts: seq<PyExpr>): set<Symbol> {
    if ts == [] then {} else PySymbols(ts[0]) + TermSymbols(ts[1..])
  }

  function PySymbolsOpt(e: Option<PyExpr>): set<Symbol> {
    if e.Some? then PySymbols(e.value) else {}
  }

  ghost predicate PyAgreeOn(val: PyValues, val': PyValues, ss: set<Symbol>) {
    forall s :: s in ss ==> val(s) == val'(s)
  }

  lemma {:induction false} PyValueAgrees(val: PyValues, val': PyValues, e: PyExpr)
    requires PyAgreeOn(val, val', PySymbols(e))
    ensures PyValue(val, e) == PyValue(val', e)
    decreases e, 0
  {
    match e
    case PNot(a) => PyValueAgrees(val, val', a);
    case PNary(op, ts) => PyTermsAgree(val, val', op, ts);
    case _ =>
  }

  lemma {:induction false} PyTermsAgree(val: PyValues, val': PyValues, op: Op, ts: seq<PyExpr>)
    requires PyAgreeOn(val, val', TermSymbols(ts))
    ensures PyTerms(val, op, ts) == PyTerms(val', op, ts)
    decreases ts, 1
  {
    if ts != [] {
      PyValueAgrees(val, val', ts[0]);
      PyTermsAgree(val, val', op, ts[1..]);
    }
  }

  lemma PyEvalAgrees(val: PyValues, val': PyValues, e: Option<PyExpr>)
    requires PyAgreeOn(val, val', PySymbolsOpt(e))
    ensures PyEval(val, e) == PyEval(val', e)
  {
    if e.Some? {
      PyValueAgrees(val, val', e.value);
    }
  }

  // ---------- the smart constructors ----------

  predicate IsStr(e: Option<PyExpr>, str: string) {
    e.Some? && e.value == PStr(str)
  }

  predicate IsNary(e: PyExpr, op: Op) {
    e.PNary? && e.op == op
  }

  /** The last steps of both constructors: put the two under one operator, merging operands. */
  function Merge(op: Op, e1: PyExpr, e2: PyExpr): PyExpr {
    if IsNary(e1, op) then
      (if IsNary(e2, op) then PNary(op, e1.terms + e2.terms) else PNary(op, e1.terms + [e2]))
    else if IsNary(e2, op) then PNary(op, e2.terms + [e1])
    else PNary(op, [e1, e2])
  }

  /** _make_and; None is y */
  function MakeAnd(e1: Option<PyExpr>, e2: Option<PyExpr>): Option<PyExpr> {
    if IsStr(e1, "n") || IsStr(e2, "n") then Some(PStr("n"))
    else if e1 == None || IsStr(e1, "y") then e2
    else if e2 == None || IsStr(e2, "y") then e1
    else Some(Merge(AndOp, e1.value, e2.value))
  }

  /** _make_or; None is y */
  function MakeOr(e1: Option<PyExpr>, e2: Option<PyExpr>): Option<PyExpr> {
    if e1 == None || e2 == None || IsStr(e1, "y") || IsStr(e2, "y") then Some(PStr("y"))
    else if IsStr(e1, "n") then e2
    else if IsStr(e2, "n") then e1
    else Some(Merge(OrOp, e1.value, e2.value))
  }

  function PyValueOpt(val: PyValues, e: Option<PyExpr>): Tri {
    if e.Some? then PyValue(val, e.value) else YES
  }

  /** The loop computes the minimum (or maximum), stopping early or not. */
  lemma PyTermsStep(val: PyValues, op: Op, t: PyExpr, ts: seq<PyExpr>)
    ensures PyTerms(val, op, [t] + ts) == op.Apply(PyValue(val, t), PyTerms(val, op, ts))
  {
    assert ([t] + ts)[1..] == ts;
  }

  lemma {:induction false} PyTermsConcat(val: PyValues, op: Op, a: seq<PyExpr>, b: seq<PyExpr>)
    ensures PyTerms(val, op, a + b) == op.Apply(PyTerms(val, op, a), PyTerms(val, op, b))
  {
    if a == [] {
      assert a + b == b;
    } else {
      assert a + b == [a[0]] + (a[1..] + b) && a == [a[0]] + a[1..];
      PyTermsConcat(val, op, a[1..], b);
      PyTermsStep(val, op, a[0], a[1..] + b);
      PyTermsStep(val, op, a[0], a[1..]);
    }
  }

  /** The operands an expression contributes to a node with this operator. */
  function OperandsOf(op: Op, e: PyExpr): seq<PyExpr> {
    if IsNary(e, op) then e.terms else [e]
  }

  lemma OperandsKeepValue(val: PyValues, op: Op, e: PyExpr)
    ensures PyTerms(val, op, OperandsOf(op, e)) == PyValue(val, e)
  {
    PyTermsStep(val, op, e, []);
    assert [e] + [] == [e];
  }

  lemma MergedTerms(op: Op, e1: PyExpr, e2: PyExpr)
    ensures var t1, t2 := OperandsOf(op, e1), OperandsOf(op, e2);
            Merge(op, e1, e2) == PNary(op, t1 + t2) || Merge(op, e1, e2) == PNary(op, t2 + t1)
  {
    assert [e1] + [e2] == [e1, e2];
  }

  lemma MergeKeepsValue(val: PyValues, op: Op, e1: PyExpr, e2: PyExpr)
    ensures PyValue(val, Merge(op, e1, e2)) == op.Apply(PyValue(val, e1), PyValue(val, e2))
  {
    var t1, t2 := OperandsOf(op, e1), OperandsOf(op, e2);
    OperandsKeepValue(val, op, e1);
    OperandsKeepValue(val, op, e2);
    PyTermsConcat(val, op, t1, t2);
    PyTermsConcat(val, op, t2, t1);
    MergedTerms(op, e1, e2);
    hide Merge, OperandsOf, PyTerms;
    assert PyValue(val, PNary(op, t1 + t2)) == PyTerms(val, op, t1 + t2);
    assert PyValue(val, PNary(op, t2 + t1)) == PyTerms(val, op, t2 + t1);
  }

  /** The simplifying constructors mean plain conjunction and disjunction, although they drop
      operands, flatten, and may put the second operand first. */
  lemma MakeAndMeansAnd(val: PyValues, e1: Option<PyExpr>, e2: Option<PyExpr>)
    ensures PyValueOpt(val, MakeAnd(e1, e2)) == Min(PyValueOpt(val, e1), PyValueOpt(val, e2))
  {
    if e1.Some? && e2.Some? {
      MergeKeepsValue(val, AndOp, e1.value, e2.value);
    }
  }

  lemma MakeOrMeansOr(val: PyValues, e1: Option<PyExpr>, e2: Option<PyExpr>)
    ensures PyValueOpt(val, MakeOr(e1, e2)) == Max(PyValueOpt(val, e1), PyValueOpt(val, e2))
  {
    if e1.Some? && e2.Some? {
      MergeKeepsValue(val, OrOp, e1.value, e2.value);
    }
  }

  /** What the constructors put together is one list, of the operands of both; constants that say nothing disappear, and
      one that decides is all that is left. */
  lemma MadeOfBoth(op: Op, e1: PyExpr, e2: PyExpr)
    requires forall c :: c in ["y", "n"] ==> e1 != PStr(c) && e2 != PStr(c)
    ensures var r := if op.AndOp? then MakeAnd(Some(e1), Some(e2)) else MakeOr(Some(e1), Some(e2));
            r.Some? && r.value.PNary? && r.value.op == op
            && multiset(r.value.terms) == multiset(OperandsOf(op, e1)) + multiset(OperandsOf(op, e2))
  {
    assert "y" in ["y", "n"] && "n" in ["y", "n"];
    MergedTerms(op, e1, e2);
    hide Merge, OperandsOf;
  }

  lemma ConstantsDisappear(e: Option<PyExpr>)
    ensures MakeAnd(Some(PStr("y")), e) == MakeAnd(None, e) == e
    ensures MakeAnd(e, Some(PStr("n"))) == MakeAnd(Some(PStr("n")), e) == Some(PStr("n"))
    ensures e != Some(PStr("y")) && e != None ==> MakeAnd(e, Some(PStr("y"))) == MakeAnd(e, None) == e
    ensures MakeOr(e, Some(PStr("y"))) == MakeOr(Some(PStr("y")), e) == Some(PStr("y"))
    ensures MakeOr(e, None) == MakeOr(None, e) == Some(PStr("y"))
    ensures e.Some? ==> MakeOr(Some(PStr("n")), e) == e && (e != Some(PStr("y")) ==> MakeOr(e, Some(PStr("n"))) == e)
  {
  }

  // ---------- the same expression in both programs ----------

  predicate SameAtom(s: Symbol, a: Atom) {
    a == (if s.Const? then AStr(s.text) else ASym(s)) || (s.IsFixed() && a == AStr(NameOf(s)))
  }

  /** The two programs have read the same text: a chain of && or || is a list in one and groups to
      the left in the other. */
  predicate Corresponds(e: Expr, pe: PyExpr)
    decreases pe, 0
  {
    match pe
    case PSym(s) => e == Sym(s) && !s.Const?
    case PStr(str) => e.Sym? && e.sym.IsConst() && NameOf(e.sym) == str
    case PNot(a) => e.Not? && Corresponds(e.arg, a)
    case PRel(equal, l, r) =>
      if equal then e.Equal? && SameAtom(e.lsym, l) && SameAtom(e.rsym, r)
      else e.Unequal? && SameAtom(e.lsym, l) && SameAtom(e.rsym, r)
    case PNary(op, ts) => |ts| >= 2 && CorrespondsChain(e, op, ts)
  }

  predicate CorrespondsChain(e: Expr, op: Op, ts: seq<PyExpr>)
    requires ts != []
    decreases ts, 1
  {
    if |ts| == 1 then Corresponds(e, ts[0])
    else e.HasOp(op) && CorrespondsChain(e.left, op, ts[..|ts| - 1]) && Corresponds(e.right, ts[|ts| - 1])
  }

  /** The two programs hold the same value for s. */
  predicate SameValue(s: Symbol, x: SymVal, str: string) {
    if s.IsLogical() then x.tri != MOD && str == Letter(x.tri)
    else x.str == str && (if s.IsFixed() then x.tri == TriOf(str) else x.tri == NO)
  }

  ghost predicate SameOn(val: Values, pval: PyValues, ss: set<Symbol>) {
    forall s :: s in ss ==> SameValue(s, val(s), pval(s))
  }

  lemma SameAtomSameString(val: Values, pval: PyValues, s: Symbol, a: Atom)
    requires SameAtom(s, a) && SameValue(s, val(s), pval(s)) && (s.IsConst() ==> val(s) == FixedValue(s))
    ensures StringValue(s, val(s)) == StrVal(pval, a)
  {
  }

  ghost predicate ConstantsFixed(val: Values) {
    forall s: Symbol :: s.IsConst() ==> val(s) == FixedValue(s)
  }

  /** Both evaluators give a shared expression the same value. */
  lemma {:induction false} EvaluatorsAgree(val: Values, pval: PyValues, e: Expr, pe: PyExpr)
    requires Corresponds(e, pe) && SameOn(val, pval, Symbols(e)) && ConstantsFixed(val)
    ensures PyValue(pval, pe) == Eval(val, e)
    decreases pe, 0
  {
    match pe
    case PSym(s) =>
    case PStr(str) =>
    case PNot(a) => EvaluatorsAgree(val, pval, e.arg, a);
    case PRel(equal, l, r) =>
      SameAtomSameString(val, pval, e.lsym, l);
      SameAtomSameString(val, pval, e.rsym, r);
    case PNary(op, ts) => ChainsAgree(val, pval, e, op, ts);
  }

  lemma {:induction false} ChainsAgree(val: Values, pval: PyValues, e: Expr, op: Op, ts: seq<PyExpr>)
    requires ts != [] && CorrespondsChain(e, op, ts) && SameOn(val, pval, Symbols(e)) && ConstantsFixed(val)
    ensures PyTerms(pval, op, ts) == Eval(val, e)
    decreases ts, 1
  {
    var last := ts[|ts| - 1];
    PyTermsStep(pval, op, last, []);
    assert [last] + [] == [last];
    if |ts| == 1 {
      EvaluatorsAgree(val, pval, e, last);
      assert ts == [last];
    } else {
      ChainsAgree(val, pval, e.left, op, ts[..|ts| - 1]);
      EvaluatorsAgree(val, pval, e.right, last);
      assert ts == ts[..|ts| - 1] + [last];
      PyTermsConcat(pval, op, ts[..|ts| - 1], [last]);
    }
  }
}
