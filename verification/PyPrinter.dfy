/** How support/scripts/kconfiglib.py prints expressions, and why its parser reads them back. */
module PyPrinter {
  import opened Tristates
  import opened Exprs
  import opened Configuration
  import opened PyExprs
  import opened PyParser

  function Precedence(e: PyExpr): nat {
    if IsNary(e, OrOp) then 0 else if IsNary(e, AndOp) then 1 else 2
  }

  /** A symbol or a string. */
  predicate IsPlain(e: PyExpr) {
    e.PSym? || e.PStr?
  }

  /** Operands at least as tight as the operator are printed bare; so are operands with the very same
      operator. */
  predicate NoParens(op: Op, e: PyExpr) {
    IsPlain(e) || e.PRel? || Precedence(PNary(op, [])) <= Precedence(e)
  }

  /** _expr_to_str_rec, as tokens */
  function Print(e: PyExpr): seq<Token>
    decreases e, 0
  {
    match e
    case PSym(s) => [Operand(ASym(s))]
    case PStr(str) => [Operand(AStr(str))]
    case PNary(op, ts) => Intersperse(op, ts)
    case PNot(a) => [Bang] + (if IsPlain(a) then Print(a) else [Open] + Print(a) + [Close])
    case PRel(equal, l, r) => [Operand(l), if equal then Equals else Differs, Operand(r)]
  }

  /** _intersperse */
  function Intersperse(op: Op, ts: seq<PyExpr>): seq<Token>
    decreases ts, 1
  {
    if ts == [] then []
    else
      var first := if NoParens(op, ts[0]) then Print(ts[0]) else [Open] + Print(ts[0]) + [Close];
      if |ts| == 1 then first else first + ([OpToken(op)] + Intersperse(op, ts[1..]))
  }

  /** How many operands need parentheses: those of a negation that are no symbols or strings, and an || below &&. */
  function Needed(e: PyExpr): nat
    decreases e, 0
  {
    match e
    case PNot(a) => (if a.PNot? || a.PNary? || a.PRel? then 1 else 0) + Needed(a)
    case PNary(op, ts) => NeededBelow(op, ts)
    case _ => 0
  }

  function NeededBelow(op: Op, ts: seq<PyExpr>): nat
    decreases ts, 1
  {
    if ts == [] then 0
    else (if op.AndOp? && ts[0].PNary? && ts[0].op.OrOp? then 1 else 0) + Needed(ts[0]) + NeededBelow(op, ts[1..])
  }

  function Opened(ts: seq<Token>): nat {
    if ts == [] then 0 else (if ts[0].Open? then 1 else 0) + Opened(ts[1..])
  }

  lemma {:induction false} OpenedConcat(a: seq<Token>, b: seq<Token>)
    ensures Opened(a + b) == Opened(a) + Opened(b)
  {
    if a == [] {
      assert a + b == b;
    } else {
      assert (a + b)[1..] == a[1..] + b;
      OpenedConcat(a[1..], b);
    }
  }

  lemma OpenedAround(ts: seq<Token>)
    ensures Opened([Open] + ts + [Close]) == 1 + Opened(ts)
  {
    OpenedConcat([Open] + ts, [Close]);
    OpenedConcat([Open], ts);
  }

  /** No other parentheses are printed. */
  lemma {:induction false} ParensAreNeeded(e: PyExpr)
    ensures Opened(Print(e)) == Needed(e)
    decreases e, 0
  {
    match e
    case PNot(a) =>
      ParensAreNeeded(a);
      OpenedAround(Print(a));
      OpenedConcat([Bang], if IsPlain(a) then Print(a) else [Open] + Print(a) + [Close]);
    case PNary(op, ts) => ParensBelowAreNeeded(op, ts);
    case PRel(equal, l, r) =>
      var sign := if equal then Equals else Differs;
      assert Print(e) == [Operand(l)] + ([sign] + [Operand(r)]);
      OpenedConcat([Operand(l)], [sign] + [Operand(r)]);
      OpenedConcat([sign], [Operand(r)]);
    case _ =>
  }

  lemma {:induction false} ParensBelowAreNeeded(op: Op, ts: seq<PyExpr>)
    ensures Opened(Intersperse(op, ts)) == NeededBelow(op, ts)
    decreases ts, 1
  {
    if ts != [] {
      var first := if NoParens(op, ts[0]) then Print(ts[0]) else [Open] + Print(ts[0]) + [Close];
      ParensAreNeeded(ts[0]);
      OpenedAround(Print(ts[0]));
      ParensBelowAreNeeded(op, ts[1..]);
      OpenedConcat(first, [OpToken(op)] + Intersperse(op, ts[1..]));
      OpenedConcat([OpToken(op)], Intersperse(op, ts[1..]));
    }
  }

  /** Every && and || has at least two operands. */
  predicate Built(e: PyExpr)
    decreases e, 0
  {
    match e
    case PNot(a) => Built(a)
    case PNary(_, ts) => |ts| >= 2 && AllBuilt(ts)
    case _ => true
  }

  predicate AllBuilt(ts: seq<PyExpr>)
    decreases ts, 1
  {
    ts == [] || (Built(ts[0]) && AllBuilt(ts[1..]))
  }

  /** Operands that have the operator of their parent are merged into it, and the symbol m becomes the
      string "m" where it is compared. */
  function Flat(e: PyExpr): PyExpr
    decreases e, 0
  {
    match e
    case PNot(a) => PNot(Flat(a))
    case PNary(op, ts) => PNary(op, FlatTerms(op, ts))
    case PRel(equal, l, r) => PRel(equal, RelOperand(l), RelOperand(r))
    case _ => e
  }

  function FlatTerms(op: Op, ts: seq<PyExpr>): seq<PyExpr>
    decreases ts, 1
  {
    if ts == [] then []
    else (if IsNary(ts[0], op) then FlatTerms(op, ts[0].terms) else [Flat(ts[0])]) + FlatTerms(op, ts[1..])
  }

  lemma {:induction false} FlatKeepsWidth(op: Op, ts: seq<PyExpr>)
    requires AllBuilt(ts)
    ensures |FlatTerms(op, ts)| >= |ts|
    decreases ts
  {
    if ts != [] {
      if IsNary(ts[0], op) {
        FlatKeepsWidth(op, ts[0].terms);
      }
      FlatKeepsWidth(op, ts[1..]);
    }
  }

  // ---------- flattening keeps the value ----------

  lemma {:induction false} FlatKeepsValue(val: PyValues, e: PyExpr)
    requires val(SymMod) == "m"
    ensures PyValue(val, Flat(e)) == PyValue(val, e)
    decreases e, 0
  {
    match e
    case PNot(a) => FlatKeepsValue(val, a);
    case PNary(op, ts) => FlatTermsKeepValue(val, op, ts);
    case _ =>
  }

  lemma {:induction false} FlatTermsKeepValue(val: PyValues, op: Op, ts: seq<PyExpr>)
    requires val(SymMod) == "m"
    ensures PyTerms(val, op, FlatTerms(op, ts)) == PyTerms(val, op, ts)
    decreases ts, 1
  {
    if ts != [] {
      var first := if IsNary(ts[0], op) then FlatTerms(op, ts[0].terms) else [Flat(ts[0])];
      PyTermsConcat(val, op, first, FlatTerms(op, ts[1..]));
      FlatTermsKeepValue(val, op, ts[1..]);
      assert ts == [ts[0]] + ts[1..];
      PyTermsStep(val, op, ts[0], ts[1..]);
      if IsNary(ts[0], op) {
        FlatTermsKeepValue(val, op, ts[0].terms);
      } else {
        FlatKeepsValue(val, ts[0]);
        PyTermsStep(val, op, Flat(ts[0]), []);
        assert [Flat(ts[0])] + [] == [Flat(ts[0])];
      }
    }
  }

  // ---------- parsing what was printed ----------

  /** After a complete operand the parser looks at the next token only for = and !=. */
  predicate EndsOperand(rest: seq<Token>) {
    !StartsWith(rest, Equals) && !StartsWith(rest, Differs)
  }

  predicate EndsChain(op: Op, rest: seq<Token>) {
    EndsOperand(rest) && (op.OrOp? ==> !StartsWith(rest, And))
  }

  /** What follows an operand of op at the end of its chain or before the next operand. */
  lemma OperatorEndsChain(op: Op, rest: seq<Token>)
    ensures EndsChain(op, [OpToken(op)] + rest)
  {
  }

  /** An operand that is no chain of && is an operand of || as well. */
  lemma FactorIsTerm(op: Op, ts: seq<Token>, e: PyExpr, after: seq<Token>)
    requires Factor(None, ts) == Ok((e, after)) && EndsChain(op, after)
    ensures Term(None, op, ts) == Ok((e, after))
  {
    if op.OrOp? {
      assert Term(None, AndOp, ts) == Ok((e, after));
      assert More(None, AndOp, after) == Ok(([], after));
      assert [e] + [] == [e];
      assert Chain(None, AndOp, ts) == Ok(([e], after));
    }
  }

  /** Parsing a single operand that is no chain of the same operator, or one in parentheses. */
  lemma {:induction false} FactorReadsBack(e: PyExpr, rest: seq<Token>)
    requires Built(e) && EndsOperand(rest)
    ensures !e.PNary? ==> Factor(None, Print(e) + rest) == Ok((Flat(e), rest))
    ensures Factor(None, [Open] + Print(e) + [Close] + rest) == Ok((Flat(e), rest))
    decreases e, 3
  {
    if !e.PNary? {
      UnaryReadsBack(e, rest);
    }
    ExprReadsBack(e, [Close] + rest);
    var all := [Open] + Print(e) + [Close] + rest;
    assert all[0] == Open && all[1..] == Print(e) + ([Close] + rest);
    assert ([Close] + rest)[1..] == rest;
  }

  lemma {:induction false} UnaryReadsBack(e: PyExpr, rest: seq<Token>)
    requires Built(e) && EndsOperand(rest) && !e.PNary?
    ensures Factor(None, Print(e) + rest) == Ok((Flat(e), rest))
    decreases e, 0
  {
    var all := Print(e) + rest;
    match e
    case PSym(_) => assert all[1..] == rest;
    case PStr(_) => assert all[1..] == rest;
    case PRel(_, _, _) => assert all[3..] == rest;
    case PNot(a) =>
      if IsPlain(a) {
        UnaryReadsBack(a, rest);
        assert all[1..] == Print(a) + rest;
      } else {
        FactorReadsBack(a, rest);
        assert all[1..] == [Open] + Print(a) + [Close] + rest;
      }
  }

  /** The loop over the operands of op reads back a printed chain. */
  lemma {:induction false} ChainReadsBack(op: Op, ts: seq<PyExpr>, rest: seq<Token>)
    requires ts != [] && AllBuilt(ts) && EndsChain(op, rest)
    ensures Chain(None, op, Intersperse(op, ts) + rest) == PrependAll(FlatTerms(op, ts), More(None, op, rest))
    decreases ts, 2
  {
    var after := if |ts| == 1 then rest else [OpToken(op)] + (Intersperse(op, ts[1..]) + rest);
    var first := if NoParens(op, ts[0]) then Print(ts[0]) else [Open] + Print(ts[0]) + [Close];
    assert Intersperse(op, ts) + rest == first + after;
    if |ts| > 1 {
      OperatorEndsChain(op, Intersperse(op, ts[1..]) + rest);
      ChainReadsBack(op, ts[1..], rest);
      assert after[1..] == Intersperse(op, ts[1..]) + rest;
      assert More(None, op, after) == PrependAll(FlatTerms(op, ts[1..]), More(None, op, rest));
    } else {
      assert FlatTerms(op, ts[1..]) == [];
      PrependNothing(More(None, op, rest));
    }
    OperandReadsBack(op, ts[0], after);
    PrependInSteps(if IsNary(ts[0], op) then FlatTerms(op, ts[0].terms) else [Flat(ts[0])],
                   FlatTerms(op, ts[1..]), More(None, op, rest));
  }

  /** One operand of a printed chain, with what follows it. */
  lemma {:induction false} OperandReadsBack(op: Op, e: PyExpr, after: seq<Token>)
    requires Built(e) && EndsChain(op, after)
    ensures var first := if NoParens(op, e) then Print(e) else [Open] + Print(e) + [Close];
            Chain(None, op, first + after)
            == PrependAll(if IsNary(e, op) then FlatTerms(op, e.terms) else [Flat(e)], More(None, op, after))
    decreases e, 4
  {
    var first := if NoParens(op, e) then Print(e) else [Open] + Print(e) + [Close];
    if IsNary(e, op) {
      ChainReadsBack(op, e.terms, after);
    } else {
      if IsNary(e, AndOp) {
        ChainReadsBack(AndOp, e.terms, after);
        FlatKeepsWidth(AndOp, e.terms);
        assert FlatTerms(AndOp, e.terms) + [] == FlatTerms(AndOp, e.terms);
      } else {
        FactorReadsBack(e, after);
        assert first + after == if NoParens(op, e) then Print(e) + after else [Open] + Print(e) + [Close] + after;
        FactorIsTerm(op, first + after, Flat(e), after);
      }
      assert Term(None, op, first + after) == Ok((Flat(e), after));
    }
  }

  /** A printed expression is read back, and nothing after it is touched. */
  lemma {:induction false} ExprReadsBack(e: PyExpr, rest: seq<Token>)
    requires Built(e) && EndsChain(OrOp, rest) && !StartsWith(rest, Or)
    ensures ParseTokens(None, Print(e) + rest) == Ok((Flat(e), rest))
    decreases e, 1
  {
    if e.PNary? {
      ChainReadsBack(e.op, e.terms, rest);
      FlatKeepsWidth(e.op, e.terms);
      assert FlatTerms(e.op, e.terms) + [] == FlatTerms(e.op, e.terms);
    } else {
      UnaryReadsBack(e, rest);
      FactorIsTerm(OrOp, Print(e) + rest, Flat(e), rest);
    }
    if !IsNary(e, OrOp) {
      assert Term(None, OrOp, Print(e) + rest) == Ok((Flat(e), rest));
      assert More(None, OrOp, rest) == Ok(([], rest));
      assert [Flat(e)] + [] == [Flat(e)];
    }
  }

  lemma PrependNothing(r: Parsed<seq<PyExpr>>)
    ensures PrependAll([], r) == r
  {
    assert r.Ok? ==> [] + r.value.0 == r.value.0;
  }

  lemma PrependInSteps(a: seq<PyExpr>, b: seq<PyExpr>, r: Parsed<seq<PyExpr>>)
    ensures PrependAll(a + b, r) == PrependAll(a, PrependAll(b, r))
  {
    assert r.Ok? ==> a + b + r.value.0 == a + (b + r.value.0);
  }

  /** Printing and parsing again changes nothing more, and never changes the value. */
  lemma PrintedExpressionIsReadBack(val: PyValues, e: PyExpr, rest: seq<Token>)
    requires Built(e) && val(SymMod) == "m"
    requires rest == [] || rest[0] !in [And, Or, Equals, Differs]
    ensures var r := ParseTokens(None, Print(e) + rest);
            && r == Ok((Flat(e), rest))
            && PyValue(val, r.value.0) == PyValue(val, e)
            && ParseTokens(None, Print(r.value.0) + rest) == r
  {
    ExprReadsBack(e, rest);
    FlatKeepsValue(val, e);
    FlatIsBuilt(e);
    FlatIsStable(e);
    ExprReadsBack(Flat(e), rest);
  }

  lemma {:induction false} AllBuiltConcat(a: seq<PyExpr>, b: seq<PyExpr>)
    ensures AllBuilt(a + b) <==> AllBuilt(a) && AllBuilt(b)
  {
    if a == [] {
      assert a + b == b;
    } else {
      assert (a + b)[1..] == a[1..] + b;
      AllBuiltConcat(a[1..], b);
    }
  }

  lemma {:induction false} FlatIsBuilt(e: PyExpr)
    requires Built(e)
    ensures Built(Flat(e))
    decreases e, 0
  {
    match e
    case PNot(a) => FlatIsBuilt(a);
    case PNary(op, ts) =>
      FlatTermsAreBuilt(op, ts);
      FlatKeepsWidth(op, ts);
    case _ =>
  }

  lemma {:induction false} FlatTermsAreBuilt(op: Op, ts: seq<PyExpr>)
    requires AllBuilt(ts)
    ensures AllBuilt(FlatTerms(op, ts))
    decreases ts, 1
  {
    if ts != [] {
      FlatTermsAreBuilt(op, ts[1..]);
      if IsNary(ts[0], op) {
        FlatTermsAreBuilt(op, ts[0].terms);
        AllBuiltConcat(FlatTerms(op, ts[0].terms), FlatTerms(op, ts[1..]));
      } else {
        FlatIsBuilt(ts[0]);
        AllBuiltConcat([Flat(ts[0])], FlatTerms(op, ts[1..]));
      }
    }
  }

  lemma {:induction false} FlatTermsConcat(op: Op, a: seq<PyExpr>, b: seq<PyExpr>)
    ensures FlatTerms(op, a + b) == FlatTerms(op, a) + FlatTerms(op, b)
  {
    if a == [] {
      assert a + b == b;
    } else {
      assert (a + b)[1..] == a[1..] + b;
      FlatTermsConcat(op, a[1..], b);
    }
  }

  /** Flattening a second time changes nothing. */
  lemma {:induction false} FlatIsStable(e: PyExpr)
    ensures Flat(Flat(e)) == Flat(e)
    decreases e, 0
  {
    match e
    case PNot(a) => FlatIsStable(a);
    case PNary(op, ts) => FlatTermsAreStable(op, ts);
    case _ =>
  }

  lemma {:induction false} FlatTermsAreStable(op: Op, ts: seq<PyExpr>)
    ensures FlatTerms(op, FlatTerms(op, ts)) == FlatTerms(op, ts)
    decreases ts, 1
  {
    if ts != [] {
      FlatTermsAreStable(op, ts[1..]);
      var first := if IsNary(ts[0], op) then FlatTerms(op, ts[0].terms) else [Flat(ts[0])];
      FlatTermsConcat(op, first, FlatTerms(op, ts[1..]));
      if IsNary(ts[0], op) {
        FlatTermsAreStable(op, ts[0].terms);
      } else {
        FlatIsStable(ts[0]);
        assert !IsNary(Flat(ts[0]), op);
      }
    }
  }

  // ---------- only such expressions are ever built ----------

  /** What the parser builds has at least two operands everywhere. */
  lemma {:induction false} ParsedIsBuilt(modules: Option<Symbol>, ts: seq<Token>)
    ensures var r := Factor(modules, ts); r.Ok? ==> Built(r.value.0)
    decreases |ts|, 0
  {
    if StartsWith(ts, Open) {
      ChainIsBuilt(modules, OrOp, ts[1..]);
    } else if StartsWith(ts, Bang) {
      ParsedIsBuilt(modules, ts[1..]);
    } else if modules.Some? {
      assert [PStr("m"), PSym(modules.value)][1..] == [PSym(modules.value)];
      assert [PSym(modules.value)][1..] == [];
      assert AllBuilt([PSym(modules.value)]);
    }
  }

  lemma {:induction false} ChainIsBuilt(modules: Option<Symbol>, op: Op, ts: seq<Token>)
    ensures var r := Chain(modules, op, ts); r.Ok? ==> AllBuilt(r.value.0) && Built(Collapse(op, r.value.0))
    decreases |ts|, if op.AndOp? then 2 else 4
  {
    if op.AndOp? {
      ParsedIsBuilt(modules, ts);
    } else {
      ChainIsBuilt(modules, AndOp, ts);
    }
    var t := Term(modules, op, ts);
    if t.Ok? && StartsWith(t.value.1, OpToken(op)) {
      ChainIsBuilt(modules, op, t.value.1[1..]);
      var more := Chain(modules, op, t.value.1[1..]);
      assert more.Ok? ==> ([t.value.0] + more.value.0)[1..] == more.value.0;
    }
  }

  /** And so has what the constructors build from such expressions. */
  lemma MergedIsBuilt(op: Op, e1: PyExpr, e2: PyExpr)
    requires Built(e1) && Built(e2)
    ensures Built(Merge(op, e1, e2))
  {
    var t1, t2 := OperandsOf(op, e1), OperandsOf(op, e2);
    assert AllBuilt([e1]) && AllBuilt([e2]);
    assert [e1] + [e2] == [e1, e2];
    AllBuiltConcat(t1, t2);
    AllBuiltConcat(t2, t1);
  }
}
