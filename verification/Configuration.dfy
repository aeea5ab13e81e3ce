/** What a configuration means: the value support/kconfig/symbol.c gives to every symbol, without
    caches and without an order of evaluation. Modules are off and there are no choices. */
module Configuration {
  import opened Tristates
  import opened Exprs
  import opened Numbers

  /** `default value if cond`; a null condition is y. */
  datatype Default = Default(value: Expr, cond: Option<Expr>)

  /** `range low high if cond` */
  datatype Range = Range(low: Symbol, high: Symbol, cond: Option<Expr>)

  /** The properties of a symbol, as menu_finalize leaves them: the conditions of its prompts, its
      defaults and ranges in order, `dir_dep.expr`, and `rev_dep.expr` collected from selects. */
  datatype Properties = Properties(prompts: seq<Option<Expr>>, defaults: seq<Default>, ranges: seq<Range>,
                                   dirDep: Option<Expr>, revDep: Option<Expr>)

  type Kconfig = Symbol -> Properties

  /** `struct symbol_value`: the string counts for string, int and hex symbols, the tristate for
      the others. */
  datatype SymVal = SymVal(str: string, tri: Tri)

  /** `def[S_DEF_USER]` of the symbols with SYMBOL_DEF_USER set. */
  type UserValues = map<Symbol, SymVal>

  function UserOf(user: UserValues, s: Symbol): Option<SymVal> {
    if s in user then Some(user[s]) else None
  }

  // ---------- dependencies ----------

  function Symbols(e: Expr): set<Symbol> {
    match e
    case Sym(s) => {s}
    case Equal(l, r) => {l, r}
    case Unequal(l, r) => {l, r}
    case Not(a) => Symbols(a)
    case Bin(_, l, r) => Symbols(l) + Symbols(r)
  }

  function SymbolsOpt(e: Option<Expr>): set<Symbol> {
    if e.Some? then Symbols(e.value) else {}
  }

  function PromptSymbols(ps: seq<Option<Expr>>): set<Symbol> {
    if ps == [] then {} else SymbolsOpt(ps[0]) + PromptSymbols(ps[1..])
  }

  function DefaultSymbols(ds: seq<Default>): set<Symbol> {
    if ds == [] then {} else Symbols(ds[0].value) + SymbolsOpt(ds[0].cond) + DefaultSymbols(ds[1..])
  }

  function RangeSymbols(rs: seq<Range>): set<Symbol> {
    if rs == [] then {} else {rs[0].low, rs[0].high} + SymbolsOpt(rs[0].cond) + RangeSymbols(rs[1..])
  }

  /** Everything the value, the visibility and the dependencies of a symbol are computed from. */
  function Deps(p: Properties): set<Symbol> {
    PromptSymbols(p.prompts) + DefaultSymbols(p.defaults) + RangeSymbols(p.ranges)
      + SymbolsOpt(p.dirDep) + SymbolsOpt(p.revDep)
  }

  /** The dependency graph is acyclic: rank orders the symbols. */
  ghost predicate Ranked(g: Kconfig, rank: Symbol -> nat) {
    forall s: Symbol, t: Symbol {:trigger t in Deps(g(s))} :: t in Deps(g(s)) ==> rank(t) < rank(s)
  }

  // ---------- one symbol, given the values of the others ----------

  type Values = Symbol -> SymVal

  /** sym_get_string_value, with modules off */
  function StringValue(s: Symbol, x: SymVal): string {
    if s.IsLogical() then (if x.tri == MOD then "n" else Letter(x.tri)) else x.str
  }

  function ValuationOf(val: Values): Valuation {
    Valuation(s => val(s).tri, s => StringValue(s, val(s)))
  }

  function Eval(val: Values, e: Expr): Tri {
    Value(ValuationOf(val), e)
  }

  function EvalOpt(val: Values, e: Option<Expr>): Tri {
    ValueOpt(ValuationOf(val), e)
  }

  function AnyPrompt(val: Values, ps: seq<Option<Expr>>): Tri {
    if ps == [] then NO else Max(AnyPrompt(val, ps[..|ps| - 1]), EvalOpt(val, ps[|ps| - 1]))
  }

  /** `sym->visible` */
  function Visibility(val: Values, p: Properties): Tri {
    Promote(AnyPrompt(val, p.prompts))
  }

  /** `sym->dir_dep.tri` */
  function DirDep(val: Values, p: Properties): Tri {
    Promote(EvalOpt(val, p.dirDep))
  }

  /** `sym->rev_dep.tri`; without selects it is n. */
  function RevDep(val: Values, s: Symbol, p: Properties): Tri {
    var t := if p.revDep.Some? then Eval(val, p.revDep.value) else NO;
    if s.IsLogical() then Promote(t) else t
  }

  /** sym_get_default_prop: the first default whose condition is not n */
  function ActiveDefault(val: Values, ds: seq<Default>): Option<Default> {
    if ds == [] then None
    else if EvalOpt(val, ds[0].cond) != NO then Some(ds[0])
    else ActiveDefault(val, ds[1..])
  }

  /** sym_get_range_prop */
  function ActiveRange(val: Values, rs: seq<Range>): Option<Range> {
    if rs == [] then None
    else if EvalOpt(val, rs[0].cond) != NO then Some(rs[0])
    else ActiveRange(val, rs[1..])
  }

  function DefaultTri(val: Values, ds: seq<Default>): Tri {
    match ActiveDefault(val, ds)
    case None => NO
    case Some(d) => Min(Eval(val, d.value), EvalOpt(val, d.cond))
  }

  /** The string default is `curr.val` of the symbol the default names; a default that is not a
      plain symbol gives nothing. */
  function DefaultStr(val: Values, ds: seq<Default>): string {
    match ActiveDefault(val, ds)
    case None => ""
    case Some(d) => if d.value.Sym? then val(d.value.sym).str else ""
  }

  /** sym_get_range_val: a bound of type int or hex fixes the base itself. */
  function BoundValue(val: Values, s: Symbol, base: int): int
    requires IsBase(base)
  {
    StrToLL(val(s).str, if s.Type().Int? then 10 else if s.Type().Hex? then 16 else base)
  }

  function Base(ty: SymType): int {
    if ty.Hex? then 16 else 10
  }

  function ShowNumber(n: int, ty: SymType): string {
    if ty.Hex? then ShowHex(n) else ShowDecimal(n)
  }

  /** sym_validate_range */
  function Clamp(val: Values, ty: SymType, rs: seq<Range>, str: string): string {
    match ActiveRange(val, rs)
    case None => str
    case Some(r) =>
      var n := StrToLL(str, Base(ty));
      var low := BoundValue(val, r.low, Base(ty));
      var high := BoundValue(val, r.high, Base(ty));
      if n < low then ShowNumber(low, ty) else if n > high then ShowNumber(high, ty) else str
  }

  /** The text of a constant, and the name of a symbol that is not defined. */
  function NameOf(s: Symbol): string {
    match s
    case SymYes => "y"
    case SymMod => "m"
    case SymNo => "n"
    case Const(text) => text
    case Config(name, _) => name
  }

  /** The value every symbol of unknown type has. */
  function FixedValue(s: Symbol): SymVal {
    SymVal(NameOf(s), if s.SymYes? then YES else if s.SymMod? then MOD else NO)
  }

  /** sym_calc_value: the value of s, given the values of the symbols it depends on. */
  function Calc(s: Symbol, p: Properties, user: Option<SymVal>, val: Values): SymVal {
    var asked := Visibility(val, p) != NO && user.Some?;
    match s.Type()
    case Unknown => FixedValue(s)
    case Boolean => SymVal("n", LogicalValue(s, p, user, val))
    case Tristate => SymVal("n", LogicalValue(s, p, user, val))
    case String => SymVal(if asked then user.value.str else DefaultStr(val, p.defaults), NO)
    case _ =>
      SymVal(Clamp(val, s.Type(), p.ranges, if asked then user.value.str else DefaultStr(val, p.defaults)), NO)
  }

  function LogicalValue(s: Symbol, p: Properties, user: Option<SymVal>, val: Values): Tri {
    var wanted := if Visibility(val, p) != NO && user.Some? then Min(user.value.tri, Visibility(val, p))
                  else DefaultTri(val, p.defaults);
    Promote(Max(wanted, RevDep(val, s, p)))
  }

  /** SYMBOL_WRITE after sym_calc_value */
  predicate Writes(s: Symbol, p: Properties, val: Values) {
    !s.Type().Unknown? &&
    (|| Visibility(val, p) != NO
     || (s.IsLogical() && (RevDep(val, s, p) != NO || ActiveDefault(val, p.defaults).Some?))
     || (!s.IsLogical() && ActiveDefault(val, p.defaults).Some? && ActiveDefault(val, p.defaults).value.value.Sym?))
  }

  /** Everything calculating a symbol stores in it: `curr`, `visible`, `dir_dep.tri`, `rev_dep.tri`
      and the flag SYMBOL_WRITE. */
  datatype Entry = Entry(curr: SymVal, visible: Tri, dirDep: Tri, revDep: Tri, write: bool)

  function CalcEntry(s: Symbol, p: Properties, user: Option<SymVal>, val: Values): Entry {
    Entry(Calc(s, p, user, val), Visibility(val, p), DirDep(val, p), RevDep(val, s, p), Writes(s, p, val))
  }

  // ---------- a value depends on the values it is computed from, and on nothing else ----------

  ghost predicate AgreeOn(val: Values, val': Values, ss: set<Symbol>) {
    forall s :: s in ss ==> val(s) == val'(s)
  }

  lemma {:induction false} EvalAgrees(val: Values, val': Values, e: Expr)
    requires AgreeOn(val, val', Symbols(e))
    ensures Eval(val, e) == Eval(val', e)
  {
    match e
    case Not(a) => EvalAgrees(val, val', a);
    case Bin(_, l, r) =>
      EvalAgrees(val, val', l);
      EvalAgrees(val, val', r);
    case _ =>
  }

  lemma EvalOptAgrees(val: Values, val': Values, e: Option<Expr>)
    requires AgreeOn(val, val', SymbolsOpt(e))
    ensures EvalOpt(val, e) == EvalOpt(val', e)
  {
    if e.Some? {
      EvalAgrees(val, val', e.value);
    }
  }

  lemma {:induction false} PromptSymbolsSplit(ps: seq<Option<Expr>>, k: nat)
    requires k < |ps|
    ensures SymbolsOpt(ps[k]) <= PromptSymbols(ps)
    ensures PromptSymbols(ps[..k]) <= PromptSymbols(ps)
  {
    if k > 0 {
      PromptSymbolsSplit(ps[1..], k - 1);
      assert ps[..k][1..] == ps[1..][..k - 1];
    }
  }

  lemma {:induction false} AnyPromptAgrees(val: Values, val': Values, ps: seq<Option<Expr>>)
    requires AgreeOn(val, val', PromptSymbols(ps))
    ensures AnyPrompt(val, ps) == AnyPrompt(val', ps)
  {
    if ps != [] {
      PromptSymbolsSplit(ps, |ps| - 1);
      AnyPromptAgrees(val, val', ps[..|ps| - 1]);
      EvalOptAgrees(val, val', ps[|ps| - 1]);
    }
  }

  lemma {:induction false} ActiveDefaultAgrees(val: Values, val': Values, ds: seq<Default>)
    requires AgreeOn(val, val', DefaultSymbols(ds))
    ensures ActiveDefault(val, ds) == ActiveDefault(val', ds)
    ensures ActiveDefault(val, ds).Some? ==>
              var d := ActiveDefault(val, ds).value;
              AgreeOn(val, val', Symbols(d.value)) && AgreeOn(val, val', SymbolsOpt(d.cond))
  {
    if ds != [] {
      EvalOptAgrees(val, val', ds[0].cond);
      ActiveDefaultAgrees(val, val', ds[1..]);
    }
  }

  lemma {:induction false} ActiveRangeAgrees(val: Values, val': Values, rs: seq<Range>)
    requires AgreeOn(val, val', RangeSymbols(rs))
    ensures ActiveRange(val, rs) == ActiveRange(val', rs)
    ensures ActiveRange(val, rs).Some? ==>
              var r := ActiveRange(val, rs).value;
              val(r.low) == val'(r.low) && val(r.high) == val'(r.high)
  {
    if rs != [] {
      EvalOptAgrees(val, val', rs[0].cond);
      ActiveRangeAgrees(val, val', rs[1..]);
    }
  }

  /** One step of the search for the active default (or range), starting at i. */
  lemma ActiveDefaultFrom(val: Values, ds: seq<Default>, i: nat)
    requires i < |ds|
    ensures ActiveDefault(val, ds[i..])
         == if EvalOpt(val, ds[i].cond) != NO then Some(ds[i]) else ActiveDefault(val, ds[i + 1..])
    ensures DefaultSymbols(ds[i..]) == Symbols(ds[i].value) + SymbolsOpt(ds[i].cond) + DefaultSymbols(ds[i + 1..])
  {
    assert ds[i..][1..] == ds[i + 1..];
  }

  lemma ActiveRangeFrom(val: Values, rs: seq<Range>, i: nat)
    requires i < |rs|
    ensures ActiveRange(val, rs[i..])
         == if EvalOpt(val, rs[i].cond) != NO then Some(rs[i]) else ActiveRange(val, rs[i + 1..])
    ensures RangeSymbols(rs[i..]) == {rs[i].low, rs[i].high} + SymbolsOpt(rs[i].cond) + RangeSymbols(rs[i + 1..])
  {
    assert rs[i..][1..] == rs[i + 1..];
  }

  lemma DefaultsAgree(val: Values, val': Values, ds: seq<Default>)
    requires AgreeOn(val, val', DefaultSymbols(ds))
    ensures DefaultTri(val, ds) == DefaultTri(val', ds)
    ensures DefaultStr(val, ds) == DefaultStr(val', ds)
  {
    ActiveDefaultAgrees(val, val', ds);
    if ActiveDefault(val, ds).Some? {
      var d := ActiveDefault(val, ds).value;
      EvalAgrees(val, val', d.value);
      EvalOptAgrees(val, val', d.cond);
    }
  }

  /** What is computed along the way agrees as well. */
  lemma PartsAgree(s: Symbol, p: Properties, val: Values, val': Values)
    requires AgreeOn(val, val', Deps(p))
    ensures Visibility(val, p) == Visibility(val', p)
    ensures RevDep(val, s, p) == RevDep(val', s, p)
    ensures DirDep(val, p) == DirDep(val', p)
    ensures DefaultTri(val, p.defaults) == DefaultTri(val', p.defaults)
    ensures DefaultStr(val, p.defaults) == DefaultStr(val', p.defaults)
    ensures ActiveDefault(val, p.defaults) == ActiveDefault(val', p.defaults)
    ensures Writes(s, p, val) == Writes(s, p, val')
  {
    AnyPromptAgrees(val, val', p.prompts);
    EvalOptAgrees(val, val', p.revDep);
    EvalOptAgrees(val, val', p.dirDep);
    DefaultsAgree(val, val', p.defaults);
    ActiveDefaultAgrees(val, val', p.defaults);
  }

  lemma ClampAgrees(p: Properties, ty: SymType, str: string, val: Values, val': Values)
    requires AgreeOn(val, val', Deps(p))
    ensures Clamp(val, ty, p.ranges, str) == Clamp(val', ty, p.ranges, str)
  {
    ActiveRangeAgrees(val, val', p.ranges);
  }

  lemma CalcAgrees(s: Symbol, p: Properties, user: Option<SymVal>, val: Values, val': Values)
    requires AgreeOn(val, val', Deps(p))
    ensures Calc(s, p, user, val) == Calc(s, p, user, val')
  {
    PartsAgree(s, p, val, val');
    if s.Type().Int? || s.Type().Hex? {
      var asked := Visibility(val, p) != NO && user.Some?;
      ClampAgrees(p, s.Type(), if asked then user.value.str else DefaultStr(val, p.defaults), val, val');
    }
  }

  // ---------- the whole configuration ----------

  /** val assigns to every symbol the value that follows from the others. */
  ghost predicate Solves(g: Kconfig, user: UserValues, val: Values) {
    forall s: Symbol :: val(s) == Calc(s, g(s), UserOf(user, s), val)
  }

  /** The value of a symbol, by recursion along the dependencies. */
  function Denotation(g: Kconfig, rank: Symbol -> nat, user: UserValues, s: Symbol): SymVal
    requires Ranked(g, rank)
    decreases rank(s)
  {
    Calc(s, g(s), UserOf(user, s), Below(g, rank, user, rank(s)))
  }

  /** The values of all symbols of a rank below n. */
  function Below(g: Kconfig, rank: Symbol -> nat, user: UserValues, n: nat): Values
    requires Ranked(g, rank)
    decreases n, 0
  {
    (t: Symbol) => if rank(t) < n then Denotation(g, rank, user, t) else SymVal("", NO)
  }

  function Solution(g: Kconfig, rank: Symbol -> nat, user: UserValues): Values
    requires Ranked(g, rank)
  {
    (s: Symbol) => Denotation(g, rank, user, s)
  }

  /** Every acyclic configuration has values ... */
  lemma SolutionExists(g: Kconfig, rank: Symbol -> nat, user: UserValues)
    requires Ranked(g, rank)
    ensures Solves(g, user, Solution(g, rank, user))
  {
    var val := Solution(g, rank, user);
    forall s: Symbol ensures val(s) == Calc(s, g(s), UserOf(user, s), val) {
      CalcAgrees(s, g(s), UserOf(user, s), Below(g, rank, user, rank(s)), val);
    }
  }

  /** ... and only one assignment of them; with user values that differ in one symbol only, the
      assignments agree on every other symbol of no higher rank. */
  lemma {:induction false} SolutionIsLocal(g: Kconfig, rank: Symbol -> nat, user: UserValues, user': UserValues,
                                           val: Values, val': Values, s: Symbol, t: Symbol)
    requires Ranked(g, rank) && Solves(g, user, val) && Solves(g, user', val')
    requires forall r: Symbol :: r != s ==> UserOf(user, r) == UserOf(user', r)
    requires t != s && rank(t) <= rank(s)
    ensures val(t) == val'(t)
    decreases rank(t)
  {
    forall r | r in Deps(g(t)) ensures val(r) == val'(r) {
      SolutionIsLocal(g, rank, user, user', val, val', s, r);
    }
    CalcAgrees(t, g(t), UserOf(user, t), val, val');
  }

  lemma {:induction false} SolutionIsUnique(g: Kconfig, rank: Symbol -> nat, user: UserValues,
                                            val: Values, val': Values, s: Symbol)
    requires Ranked(g, rank) && Solves(g, user, val) && Solves(g, user, val')
    ensures val(s) == val'(s)
    decreases rank(s)
  {
    forall r | r in Deps(g(s)) ensures val(r) == val'(r) {
      SolutionIsUnique(g, rank, user, val, val', r);
    }
    CalcAgrees(s, g(s), UserOf(user, s), val, val');
  }

  // ---------- what the values are like ----------

  /** The evaluated configuration meets the conditions under which expressions are rewritten, so
      every result about rewriting holds for it. */
  lemma SolutionIsWellFormed(g: Kconfig, user: UserValues, val: Values)
    requires Solves(g, user, val)
    ensures ValuationOf(val).WellFormed()
  {
    var v := ValuationOf(val);
    forall s: Symbol | s.IsLogical() ensures v.tri(s) != MOD && v.str(s) == Letter(v.tri(s)) {
      assert val(s) == Calc(s, g(s), UserOf(user, s), val);
    }
    assert val(SymYes) == FixedValue(SymYes) && val(SymMod) == FixedValue(SymMod) && val(SymNo) == FixedValue(SymNo);
    forall n: ConstName ensures v.str(Const(n)) == n && v.tri(Const(n)) == NO {
      assert val(Const(n)) == FixedValue(Const(n));
    }
  }

  /** Whatever has a value is written: a bool or tristate symbol that is not n, a string that is not empty, and a number
      that is not what becomes of no text at all ... */
  lemma ValueIsWritten(g: Kconfig, user: UserValues, val: Values, s: Symbol)
    requires Solves(g, user, val) && !s.Type().Unknown? && !Writes(s, g(s), val)
    ensures s.IsLogical() ==> val(s).tri == NO
    ensures s.Type().String? ==> val(s).str == ""
    ensures s.Type().Int? || s.Type().Hex? ==> val(s).str == Clamp(val, s.Type(), g(s).ranges, "")
  {
    assert val(s) == Calc(s, g(s), UserOf(user, s), val);
  }

  /** ... and so is whatever can be seen; but nothing that no prompt, select or default reaches. */
  lemma WrittenIsReached(s: Symbol, p: Properties, val: Values)
    ensures Visibility(val, p) != NO && !s.Type().Unknown? ==> Writes(s, p, val)
    ensures Writes(s, p, val) ==>
              Visibility(val, p) != NO || RevDep(val, s, p) != NO || ActiveDefault(val, p.defaults).Some?
    ensures Writes(s, p, val) ==> !s.Type().Unknown?
  {
  }

  /** A value that a prompt accepts is the value the symbol then has: with the user value set to
      it, nothing the acceptance was judged by changes. */
  lemma AcceptedValueIsTaken(g: Kconfig, rank: Symbol -> nat, user: UserValues, val: Values, val': Values,
                             s: Symbol, x: SymVal)
    requires Ranked(g, rank) && Solves(g, user, val) && Solves(g, user[s := x], val') && s.IsLogical()
    requires Visibility(val, g(s)) != NO && x.tri != MOD
    requires RevDep(val, s, g(s)) <= x.tri <= Visibility(val, g(s))
    ensures val'(s).tri == x.tri
  {
    forall r | r in Deps(g(s)) ensures val(r) == val'(r) {
      SolutionIsLocal(g, rank, user, user[s := x], val, val', s, r);
    }
    PartsAgree(s, g(s), val, val');
    assert val'(s) == Calc(s, g(s), Some(x), val');
  }

  lemma OwnValueAsUserValue(s: Symbol, p: Properties, user: Option<SymVal>, x: SymVal, val: Values)
    requires s.IsLogical() && x.tri == Calc(s, p, user, val).tri
    ensures Calc(s, p, Some(x), val) == Calc(s, p, user, val)
  {
    assert Visibility(val, p) != MOD;
  }

  /** Setting a symbol to the value it already has changes nothing anywhere. */
  lemma {:induction false} SettingCurrentValueIsNeutral(g: Kconfig, rank: Symbol -> nat, user: UserValues,
                                                        val: Values, val': Values, s: Symbol, x: SymVal, t: Symbol)
    requires Ranked(g, rank) && Solves(g, user, val) && Solves(g, user[s := x], val') && s.IsLogical()
    requires x.tri == val(s).tri
    ensures val'(t) == val(t)
    decreases rank(t)
  {
    forall r | r in Deps(g(t)) ensures val(r) == val'(r) {
      SettingCurrentValueIsNeutral(g, rank, user, val, val', s, x, r);
    }
    CalcAgrees(t, g(t), UserOf(user[s := x], t), val, val');
    assert val(t) == Calc(t, g(t), UserOf(user, t), val);
    if t == s {
      OwnValueAsUserValue(s, g(s), UserOf(user, s), x, val);
    } else {
      assert UserOf(user[s := x], t) == UserOf(user, t);
    }
  }

  /** sym_validate_range holds an int symbol in its range ... */
  lemma ClampHoldsInt(val: Values, rs: seq<Range>, str: string)
    requires ActiveRange(val, rs).Some?
    ensures var r := ActiveRange(val, rs).value;
            var low, high := BoundValue(val, r.low, 10), BoundValue(val, r.high, 10);
            low <= high ==> low <= StrToLL(Clamp(val, Int, rs, str), 10) <= high
  {
    var r := ActiveRange(val, rs).value;
    DecimalRoundTrip(BoundValue(val, r.low, 10));
    DecimalRoundTrip(BoundValue(val, r.high, 10));
  }

  /** ... but a hex symbol only if it is not pushed to a negative bound: printed as 0x%llx, such
      a bound reads back as the largest number there is. */
  lemma ClampHoldsHex(val: Values, rs: seq<Range>, str: string)
    requires ActiveRange(val, rs).Some?
    ensures var r := ActiveRange(val, rs).value;
            var n, low, high := StrToLL(str, 16), BoundValue(val, r.low, 16), BoundValue(val, r.high, 16);
            low <= high ==>
              (low <= StrToLL(Clamp(val, Hex, rs, str), 16) <= high
               <==> !(n < low < 0 && high < LLONG_MAX) && !(high < n && high < 0))
  {
    var r := ActiveRange(val, rs).value;
    NegativeHexSaturates(BoundValue(val, r.low, 16));
    NegativeHexSaturates(BoundValue(val, r.high, 16));
  }

  /** A value that is held in its range a second time stays as it is: where a bound is put in its place, the other
      bound must not be beyond it, but for the way negative bounds of a hex symbol are read. */
  predicate StableRange(val: Values, ty: SymType, rs: seq<Range>, str: string) {
    match ActiveRange(val, rs)
    case None => true
    case Some(r) =>
      var n := StrToLL(str, Base(ty));
      var low := BoundValue(val, r.low, Base(ty));
      var high := BoundValue(val, r.high, Base(ty));
      if n < low then (if ty.Hex? && low < 0 then high == LLONG_MAX || low == high else low <= high)
      else if n > high then (ty.Hex? && high < 0) || low <= high
      else true
  }

  lemma ClampTwice(val: Values, ty: SymType, rs: seq<Range>, str: string)
    requires ty.Int? || ty.Hex?
    ensures Clamp(val, ty, rs, Clamp(val, ty, rs, str)) == Clamp(val, ty, rs, str) <==> StableRange(val, ty, rs, str)
  {
    if ActiveRange(val, rs).Some? {
      var r := ActiveRange(val, rs).value;
      var low, high := BoundValue(val, r.low, Base(ty)), BoundValue(val, r.high, Base(ty));
      ShowIsInjective(low, high);
      if ty.Int? {
        DecimalRoundTrip(low);
        DecimalRoundTrip(high);
      } else {
        NegativeHexSaturates(low);
        NegativeHexSaturates(high);
      }
    }
  }

  /** A direct dependency is n exactly if there is a condition and it is n, and y otherwise. */
  lemma DirDepExactly(val: Values, p: Properties)
    ensures DirDep(val, p) == if p.dirDep.Some? && Eval(val, p.dirDep.value) == NO then NO else YES
  {
  }

  /** A bound that is a number of its own is read as what it is, whatever the base of the symbol it bounds. */
  lemma BoundIsReadInItsBase(val: Values, b: Symbol, base: int, n: int)
    requires IsBase(base) && LLONG_MIN <= n <= LLONG_MAX
    ensures b.Type().Int? && val(b).str == ShowDecimal(n) ==> BoundValue(val, b, base) == n
    ensures b.Type().Hex? && val(b).str == ShowHex(n) && n >= 0 ==> BoundValue(val, b, base) == n
    ensures base == 10 && val(b).str == ShowDecimal(n) && !b.Type().Hex? ==> BoundValue(val, b, base) == n
    ensures base == 16 && val(b).str == ShowHex(n) && n >= 0 && !b.Type().Int? ==> BoundValue(val, b, base) == n
  {
    DecimalRoundTrip(n);
    NegativeHexSaturates(n);
  }

  /** The range in effect is the first one whose condition is not n. */
  lemma {:induction false} FirstRangeCounts(val: Values, rs: seq<Range>, k: nat)
    requires k < |rs| && EvalOpt(val, rs[k].cond) != NO && forall i :: 0 <= i < k ==> EvalOpt(val, rs[i].cond) == NO
    ensures ActiveRange(val, rs) == Some(rs[k])
  {
    if k > 0 {
      FirstRangeCounts(val, rs[1..], k - 1);
    }
  }

  /** What a value accepted by the prompt is: exactly one that the symbol takes when it is set. */
  lemma AcceptedIsTaken(s: Symbol, p: Properties, user: Option<SymVal>, x: SymVal, val: Values)
    requires s.IsLogical() && x.tri != MOD && val(s) == Calc(s, p, user, val)
    ensures Calc(s, p, Some(x), val).tri == x.tri <==>
              val(s).tri == x.tri
              || (Visibility(val, p) > RevDep(val, s, p) && RevDep(val, s, p) <= x.tri <= Visibility(val, p))
  {
    assert Visibility(val, p) != MOD && RevDep(val, s, p) != MOD && val(s).tri != MOD;
  }
}
