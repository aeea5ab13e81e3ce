/** The values kconfiglib.py computes for a configuration without choices and without modules, and
    why they are the values the C implementation computes. */
module PyConfiguration {
  import opened Tristates
  import opened Exprs
  import opened Configuration
  import opened PyExprs

  datatype PyDefault = PyDefault(value: PyExpr, cond: Option<PyExpr>)

  /** The prompt conditions, the defaults, and the select conditions of a Symbol. */
  datatype PyProperties = PyProperties(prompts: seq<Option<PyExpr>>, defaults: seq<PyDefault>, revDep: PyExpr)

  /** _get_visibility: _eval_max over the prompts, starting from n */
  function PyAnyPrompt(val: PyValues, ps: seq<Option<PyExpr>>): Tri {
    if ps == [] then NO else Max(PyAnyPrompt(val, ps[..|ps| - 1]), PyEval(val, ps[|ps| - 1]))
  }

  function PyActiveDefault(val: PyValues, ds: seq<PyDefault>): Option<PyDefault> {
    if ds == [] then None
    else if PyEval(val, ds[0].cond) != NO then Some(ds[0])
    else PyActiveDefault(val, ds[1..])
  }

  /** The loop over the defaults of a BOOL or TRISTATE symbol */
  function PyDefaultTri(val: PyValues, ds: seq<PyDefault>): Tri {
    match PyActiveDefault(val, ds)
    case None => NO
    case Some(d) => Min(PyEval(val, Some(d.value)), Promote(PyEval(val, d.cond)))
  }

  /** The loop over the defaults of a STRING symbol. A default that is neither a symbol nor a string
      has no string value in the original; such configurations are excluded below. */
  function PyDefaultStr(val: PyValues, ds: seq<PyDefault>): string {
    match PyActiveDefault(val, ds)
    case None => ""
    case Some(d) => if d.value.PSym? then val(d.value.sym) else if d.value.PStr? then d.value.str else ""
  }

  /** get_value for BOOL and TRISTATE symbols: m is promoted in every single evaluation. */
  function PyLogicalValue(p: PyProperties, user: Option<string>, val: PyValues): Tri {
    var vis := PyAnyPrompt(val, p.prompts);
    var wanted := if vis != NO && user.Some? then Min(Promote(TriOf(user.value)), Promote(vis))
                  else PyDefaultTri(val, p.defaults);
    var rev := PyEval(val, Some(p.revDep));
    if rev != NO then Max(Promote(wanted), Promote(rev)) else wanted
  }

  /** get_value for STRING symbols */
  function PyStringValue(p: PyProperties, user: Option<string>, val: PyValues): string {
    if PyAnyPrompt(val, p.prompts) != NO && user.Some? then user.value else PyDefaultStr(val, p.defaults)
  }

  /** Symbol.get_value, without the caches */
  function PyCalc(s: Symbol, p: PyProperties, user: Option<string>, val: PyValues): string {
    match s.Type()
    case Unknown => NameOf(s)
    case Boolean => Letter(PyLogicalValue(p, user, val))
    case Tristate => Letter(PyLogicalValue(p, user, val))
    case _ => PyStringValue(p, user, val)
  }

  type PyKconfig = Symbol -> PyProperties

  ghost predicate PySolves(g: PyKconfig, user: map<Symbol, string>, val: PyValues) {
    forall s: Symbol :: val(s) == PyCalc(s, g(s), if s in user then Some(user[s]) else None, val)
  }

  // ---------- the same configuration in both programs ----------

  predicate SameCondition(e: Option<Expr>, pe: Option<PyExpr>) {
    e.Some? == pe.Some? && (e.Some? ==> Corresponds(e.value, pe.value))
  }

  predicate SameProperties(p: Properties, pp: PyProperties) {
    && |p.prompts| == |pp.prompts|
    && (forall i :: 0 <= i < |p.prompts| ==> SameCondition(p.prompts[i], pp.prompts[i]))
    && |p.defaults| == |pp.defaults|
    && (forall i :: 0 <= i < |p.defaults| ==>
          && Corresponds(p.defaults[i].value, pp.defaults[i].value)
          && SameCondition(p.defaults[i].cond, pp.defaults[i].cond))
    && (if p.revDep == None then pp.revDep == PStr("n") else Corresponds(p.revDep.value, pp.revDep))
  }

  /** A user value as both programs store it. */
  predicate SameUserValue(s: Symbol, x: Option<SymVal>, str: Option<string>) {
    x.Some? == str.Some? && (x.Some? ==>
      if s.IsLogical() then str.value == Letter(x.value.tri) else str.value == x.value.str)
  }

  /** A string symbol that takes its default, and whose default in effect names a bool or tristate symbol. */
  predicate TakesLogicalDefault(s: Symbol, p: Properties, user: Option<SymVal>, val: Values) {
    && s.Type().String? && (Visibility(val, p) == NO || user == None)
    && ActiveDefault(val, p.defaults).Some?
    && ActiveDefault(val, p.defaults).value.value.Sym? && ActiveDefault(val, p.defaults).value.value.sym.IsLogical()
  }

  /** Then that symbol is n. */
  predicate DefaultIsText(s: Symbol, p: Properties, user: Option<SymVal>, val: Values) {
    TakesLogicalDefault(s, p, user, val) ==> val(ActiveDefault(val, p.defaults).value.value.sym).tri == NO
  }

  // ---------- agreement ----------

  lemma PromoteMinMax(a: Tri, b: Tri)
    ensures Promote(Min(a, b)) == Min(Promote(a), Promote(b))
    ensures Promote(Max(a, b)) == Max(Promote(a), Promote(b))
    ensures Promote(Promote(a)) == Promote(a)
  {
  }

  lemma ConditionsAgree(val: Values, pval: PyValues, e: Option<Expr>, pe: Option<PyExpr>)
    requires SameCondition(e, pe) && SameOn(val, pval, SymbolsOpt(e)) && ConstantsFixed(val)
    ensures PyEval(pval, pe) == Promote(EvalOpt(val, e))
  {
    if e.Some? {
      EvaluatorsAgree(val, pval, e.value, pe.value);
    }
  }

  lemma {:induction false} PromptsAgree(val: Values, pval: PyValues, ps: seq<Option<Expr>>, pps: seq<Option<PyExpr>>)
    requires |ps| == |pps| && (forall i :: 0 <= i < |ps| ==> SameCondition(ps[i], pps[i]))
    requires SameOn(val, pval, PromptSymbols(ps)) && ConstantsFixed(val)
    ensures PyAnyPrompt(pval, pps) == Promote(AnyPrompt(val, ps))
  {
    if ps != [] {
      var k := |ps| - 1;
      PromptSymbolsSplit(ps, k);
      PromptsAgree(val, pval, ps[..k], pps[..k]);
      ConditionsAgree(val, pval, ps[k], pps[k]);
      PromoteMinMax(AnyPrompt(val, ps[..k]), EvalOpt(val, ps[k]));
    }
  }

  /** Both programs pick the same default. */
  lemma {:induction false} DefaultChoiceAgrees(val: Values, pval: PyValues, ds: seq<Default>, pds: seq<PyDefault>)
    returns (k: nat)
    requires |ds| == |pds|
    requires forall i :: 0 <= i < |ds| ==>
               Corresponds(ds[i].value, pds[i].value) && SameCondition(ds[i].cond, pds[i].cond)
    requires SameOn(val, pval, DefaultSymbols(ds)) && ConstantsFixed(val)
    ensures k <= |ds|
    ensures ActiveDefault(val, ds) == if k < |ds| then Some(ds[k]) else None
    ensures PyActiveDefault(pval, pds) == if k < |ds| then Some(pds[k]) else None
    ensures k < |ds| ==> Symbols(ds[k].value) <= DefaultSymbols(ds) && SymbolsOpt(ds[k].cond) <= DefaultSymbols(ds)
  {
    k := 0;
    if ds != [] {
      ConditionsAgree(val, pval, ds[0].cond, pds[0].cond);
      if EvalOpt(val, ds[0].cond) == NO {
        var j := DefaultChoiceAgrees(val, pval, ds[1..], pds[1..]);
        k := j + 1;
      }
    }
  }

  lemma LogicalDefaultsAgree(val: Values, pval: PyValues, p: Properties, pp: PyProperties)
    requires SameProperties(p, pp) && SameOn(val, pval, DefaultSymbols(p.defaults)) && ConstantsFixed(val)
    ensures PyDefaultTri(pval, pp.defaults) == Promote(DefaultTri(val, p.defaults))
  {
    var k := DefaultChoiceAgrees(val, pval, p.defaults, pp.defaults);
    if k < |p.defaults| {
      var d, pd := p.defaults[k], pp.defaults[k];
      EvaluatorsAgree(val, pval, d.value, pd.value);
      ConditionsAgree(val, pval, d.cond, pd.cond);
      PromoteMinMax(Eval(val, d.value), EvalOpt(val, d.cond));
    }
  }

  lemma ReverseDependenciesAgree(s: Symbol, p: Properties, pp: PyProperties, val: Values, pval: PyValues)
    requires s.IsLogical() && SameProperties(p, pp) && SameOn(val, pval, SymbolsOpt(p.revDep)) && ConstantsFixed(val)
    ensures PyEval(pval, Some(pp.revDep)) == RevDep(val, s, p)
  {
    if p.revDep.Some? {
      EvaluatorsAgree(val, pval, p.revDep.value, pp.revDep);
    }
  }

  lemma PromotedAtTheEnd(asked: bool, x: Tri, vis: Tri, default: Tri, rev: Tri)
    requires rev != MOD && vis != MOD
    ensures var wanted := if asked then Min(Promote(x), Promote(vis)) else Promote(default);
            Promote(Max(if asked then Min(x, vis) else default, rev))
            == if rev != NO then Max(Promote(wanted), Promote(rev)) else wanted
  {
  }

  lemma LogicalValuesAgree(s: Symbol, p: Properties, pp: PyProperties, x: Option<SymVal>, str: Option<string>,
                           val: Values, pval: PyValues)
    requires s.IsLogical() && SameProperties(p, pp) && SameUserValue(s, x, str)
    requires SameOn(val, pval, Deps(p)) && ConstantsFixed(val)
    ensures PyLogicalValue(pp, str, pval) == LogicalValue(s, p, x, val)
  {
    PromptsAgree(val, pval, p.prompts, pp.prompts);
    LogicalDefaultsAgree(val, pval, p, pp);
    ReverseDependenciesAgree(s, p, pp, val, pval);
    PromotedAtTheEnd(Visibility(val, p) != NO && x.Some?, if x.Some? then x.value.tri else NO,
                     Visibility(val, p), DefaultTri(val, p.defaults), RevDep(val, s, p));
  }

  /** What the C implementation takes for the value of a bool or tristate symbol in a string default. */
  predicate LogicalText(val: Values, p: Properties) {
    ActiveDefault(val, p.defaults).Some? && ActiveDefault(val, p.defaults).value.value.Sym? ==>
      var b := ActiveDefault(val, p.defaults).value.value.sym; b.IsLogical() ==> val(b).str == "n"
  }

  lemma StringDefaultsAgree(s: Symbol, p: Properties, pp: PyProperties, val: Values, pval: PyValues)
    requires s.Type().String? && SameProperties(p, pp) && PlainDefaults(s, p) && LogicalText(val, p)
    requires SameOn(val, pval, DefaultSymbols(p.defaults)) && ConstantsFixed(val)
    ensures var d := ActiveDefault(val, p.defaults);
            && (d.Some? ==> d.value.value.Sym?)
            && (PyDefaultStr(pval, pp.defaults) == DefaultStr(val, p.defaults)
                <==> (d.Some? && d.value.value.sym.IsLogical() ==> val(d.value.value.sym).tri == NO))
  {
    var k := DefaultChoiceAgrees(val, pval, p.defaults, pp.defaults);
    if k < |p.defaults| {
      assert p.defaults[k] in p.defaults;
      var d := p.defaults[k].value.sym;
      assert d in Symbols(p.defaults[k].value);
      assert SameValue(d, val(d), pval(d));
    }
  }

  /** Both give a string symbol the same value, if and only if a default in effect that names a bool or tristate
      symbol names one that is n. */
  lemma StringValuesAgree(s: Symbol, p: Properties, pp: PyProperties, x: Option<SymVal>, str: Option<string>,
                          val: Values, pval: PyValues)
    requires s.Type().String? && SameProperties(p, pp) && SameUserValue(s, x, str) && PlainDefaults(s, p)
    requires SameOn(val, pval, Deps(p)) && ConstantsFixed(val) && LogicalText(val, p)
    ensures PyStringValue(pp, str, pval) == Calc(s, p, x, val).str <==> DefaultIsText(s, p, x, val)
  {
    PromptsAgree(val, pval, p.prompts, pp.prompts);
    StringDefaultsAgree(s, p, pp, val, pval);
    hide PyDefaultStr, DefaultStr, SameProperties, SameOn, AnyPrompt, PyAnyPrompt, ActiveDefault, PlainDefaults, Deps;
  }

  /** A configuration both programs can evaluate: acyclic, the same properties and user values, bool,
      tristate and string symbols only. */
  ghost predicate SameConfiguration(g: Kconfig, rank: Symbol -> nat, pg: PyKconfig,
                                    user: UserValues, puser: map<Symbol, string>, all: iset<Symbol>) {
    && Ranked(g, rank)
    && forall s :: s in all ==>
         && !s.Type().Int? && !s.Type().Hex?
         && SameProperties(g(s), pg(s)) && PlainDefaults(s, g(s))
         && SameUserValue(s, UserOf(user, s), if s in puser then Some(puser[s]) else None)
         && (forall t :: t in Deps(g(s)) ==> t in all)
  }

  /** The default of a string symbol is a symbol or a constant. */
  predicate PlainDefaults(s: Symbol, p: Properties) {
    s.Type().String? ==> forall d :: d in p.defaults ==> d.value.Sym?
  }

  /** One symbol, when the symbols it depends on agree: the C implementation promotes m to y once at the end, the
      Python one in every evaluation. */
  lemma SymbolAgrees(g: Kconfig, rank: Symbol -> nat, pg: PyKconfig,
                     user: UserValues, puser: map<Symbol, string>, all: iset<Symbol>,
                     val: Values, pval: PyValues, s: Symbol)
    requires SameConfiguration(g, rank, pg, user, puser, all) && s in all
    requires Solves(g, user, val) && PySolves(pg, puser, pval) && SameOn(val, pval, Deps(g(s)))
    ensures SameValue(s, val(s), pval(s)) <==> DefaultIsText(s, g(s), UserOf(user, s), val)
  {
    forall t: Symbol | t.IsConst() ensures val(t) == FixedValue(t) {
      assert val(t) == Calc(t, g(t), UserOf(user, t), val);
    }
    forall t: Symbol | t.IsLogical() ensures val(t).str == "n" {
      assert val(t) == Calc(t, g(t), UserOf(user, t), val);
    }
    var x, str := UserOf(user, s), if s in puser then Some(puser[s]) else None;
    assert val(s) == Calc(s, g(s), x, val) && pval(s) == PyCalc(s, pg(s), str, pval);
    if s.IsLogical() {
      LogicalValuesAgree(s, g(s), pg(s), x, str, val, pval);
    } else if s.Type().String? {
      StringValuesAgree(s, g(s), pg(s), x, str, val, pval);
    }
  }

  lemma {:induction false} AgreeOnText(g: Kconfig, rank: Symbol -> nat, pg: PyKconfig,
                                       user: UserValues, puser: map<Symbol, string>, all: iset<Symbol>,
                                       val: Values, pval: PyValues, s: Symbol)
    requires SameConfiguration(g, rank, pg, user, puser, all) && s in all
    requires Solves(g, user, val) && PySolves(pg, puser, pval)
    requires forall t :: t in all ==> DefaultIsText(t, g(t), UserOf(user, t), val)
    ensures SameValue(s, val(s), pval(s))
    decreases rank(s)
  {
    forall t | t in Deps(g(s)) ensures SameValue(t, val(t), pval(t)) {
      AgreeOnText(g, rank, pg, user, puser, all, val, pval, t);
    }
    SymbolAgrees(g, rank, pg, user, puser, all, val, pval, s);
  }

  /** The C and the Python implementation agree on every symbol, if and only if no string symbol takes its default
      from a bool or tristate symbol that is not n: there the C implementation takes `curr.val`, which is "n"
      whatever the value of that symbol. */
  lemma ImplementationsAgree(g: Kconfig, rank: Symbol -> nat, pg: PyKconfig,
                             user: UserValues, puser: map<Symbol, string>, all: iset<Symbol>,
                             val: Values, pval: PyValues)
    requires SameConfiguration(g, rank, pg, user, puser, all)
    requires Solves(g, user, val) && PySolves(pg, puser, pval)
    ensures (forall s :: s in all ==> SameValue(s, val(s), pval(s)))
       <==> (forall s :: s in all ==> DefaultIsText(s, g(s), UserOf(user, s), val))
  {
    hide SameValue, DefaultIsText, Deps;
    if forall s :: s in all ==> DefaultIsText(s, g(s), UserOf(user, s), val) {
      forall s | s in all ensures SameValue(s, val(s), pval(s)) {
        AgreeOnText(g, rank, pg, user, puser, all, val, pval, s);
      }
    }
    if forall s :: s in all ==> SameValue(s, val(s), pval(s)) {
      forall s | s in all ensures DefaultIsText(s, g(s), UserOf(user, s), val) {
        SymbolAgrees(g, rank, pg, user, puser, all, val, pval, s);
      }
    }
  }

  /** Where they part: a string symbol whose default is a bool symbol that is y. */
  lemma LogicalDefaultOfString(s: Symbol, b: Symbol, val: Values, pval: PyValues)
    requires s.Type().String? && b.Type().Boolean? && val(b) == SymVal("n", YES) && pval(b) == "y"
    ensures Calc(s, Properties([], [Default(Sym(b), None)], [], None, None), None, val).str == "n"
    ensures PyCalc(s, PyProperties([], [PyDefault(PSym(b), None)], PStr("n")), None, pval) == "y"
  {
    assert EvalOpt(val, None) == YES && PyEval(pval, None) == YES;
  }
}
