/** A whole configuration as kconfiglib.py sees it, choices included, and the values it gives to
    symbols when nothing is cached. There is no MODULES symbol. */
module PyModels {
  import opened Tristates
  import opened Exprs
  import opened Configuration
  import opened PyExprs
  import opened PyConfiguration

  datatype PyRange = PyRange(low: Atom, high: Atom, cond: Option<PyExpr>)

  /** A Symbol object; `choice` is its parent if it is an actual choice item. */
  datatype PySymbol = PySymbol(props: PyProperties, ranges: seq<PyRange>, choice: Option<nat>, defined: bool)

  datatype ChoiceDefault = ChoiceDefault(sym: Symbol, cond: Option<PyExpr>)

  /** A Choice object; `members` is actual_symbols. */
  datatype PyChoice = PyChoice(prompts: seq<Option<PyExpr>>, defaults: seq<ChoiceDefault>, optional: bool,
                               ty: SymType, members: seq<Symbol>)

  /** A Config object after parsing. int(), hex() and str() are Python's: `parse` yields None where
      int() raises ValueError. */
  datatype Model = Model(syms: set<Symbol>, sym: Symbol -> PySymbol, choice: nat -> PyChoice,
                         parse: (string, int) -> Option<int>, show: (int, SymType) -> string)

  /** user_val of the symbols, user_val and user_mode of the choices. */
  datatype Users = Users(val: map<Symbol, string>, selection: map<nat, Symbol>, mode: map<nat, Tri>)

  function Find<K, V>(m: map<K, V>, k: K): Option<V> {
    if k in m then Some(m[k]) else None
  }

  // ---------- visibility, mode and selection ----------

  /** _get_visibility of a choice */
  function ChoiceVisibility(m: Model, val: PyValues, c: nat): Tri {
    Promote(PyAnyPrompt(val, m.choice(c).prompts))
  }

  /** _get_visibility of a symbol */
  function SymVisibility(m: Model, val: PyValues, s: Symbol): Tri {
    var vis := PyAnyPrompt(val, m.sym(s).props.prompts);
    match m.sym(s).choice
    case None => vis
    case Some(c) => Min(Promote(vis), Promote(ChoiceVisibility(m, val, c)))
  }

  /** Choice.get_mode */
  function Mode(m: Model, u: Users, val: PyValues, c: nat): Tri {
    var wanted := if c in u.mode then u.mode[c] else if m.choice(c).optional then NO else MOD;
    var mode := Min(Promote(wanted), Promote(ChoiceVisibility(m, val, c)));
    if m.choice(c).ty.Boolean? then Promote(mode) else mode
  }

  function ChosenDefault(m: Model, val: PyValues, ds: seq<ChoiceDefault>, first: Symbol): Symbol {
    if ds == [] then first
    else if PyEval(val, ds[0].cond) != NO then ds[0].sym
    else ChosenDefault(m, val, ds[1..], first)
  }

  function FirstVisible(m: Model, val: PyValues, ss: seq<Symbol>): Option<Symbol> {
    if ss == [] then None
    else if SymVisibility(m, val, ss[0]) != NO then Some(ss[0])
    else FirstVisible(m, val, ss[1..])
  }

  /** Choice.get_selection_from_defaults */
  function DefaultSelection(m: Model, val: PyValues, c: nat): Option<Symbol> {
    var members := m.choice(c).members;
    if members == [] then None
    else
      var chosen := ChosenDefault(m, val, m.choice(c).defaults, members[0]);
      if SymVisibility(m, val, chosen) != NO then Some(chosen) else FirstVisible(m, val, members)
  }

  /** Choice.get_selection */
  function Selection(m: Model, u: Users, val: PyValues, c: nat): Option<Symbol> {
    if Mode(m, u, val, c) != YES then None
    else if c in u.selection && SymVisibility(m, val, u.selection[c]) == YES then Some(u.selection[c])
    else if m.choice(c).optional then None
    else DefaultSelection(m, val, c)
  }

  // ---------- values ----------

  /** get_value of an actual choice item */
  function ItemValue(m: Model, u: Users, val: PyValues, s: Symbol, c: nat): string {
    if SymVisibility(m, val, s) == NO then "n"
    else
      var mode := Mode(m, u, val, c);
      if mode == YES then (if Selection(m, u, val, c) == Some(s) then "y" else "n")
      else if mode == MOD && s in u.val && (u.val[s] == "m" || u.val[s] == "y") then
        (if s.Type().Boolean? then "y" else "m")
      else "n"
  }

  function ActivePyRange(val: PyValues, rs: seq<PyRange>): Option<PyRange> {
    if rs == [] then None
    else if PyEval(val, rs[0].cond) != NO then Some(rs[0])
    else ActivePyRange(val, rs[1..])
  }

  function Bound(m: Model, val: PyValues, a: Atom, base: int): int {
    var n := m.parse(StrVal(val, a), base);
    if n.Some? then n.value else 0
  }

  /** The bounds of the active range, as numbers. */
  function ActiveBounds(m: Model, val: PyValues, s: Symbol): Option<(int, int)> {
    match ActivePyRange(val, m.sym(s).ranges)
    case None => None
    case Some(r) => Some((Bound(m, val, r.low, Base(s.Type())), Bound(m, val, r.high, Base(s.Type()))))
  }

  /** The loop over the defaults of an int or hex symbol: a default that is no number is kept only
      until a later one applies. The flag says whether the loop was left by break. */
  function NumberDefault(m: Model, val: PyValues, ty: SymType, bounds: Option<(int, int)>, ds: seq<PyDefault>,
                         acc: string): (bool, string) {
    if ds == [] then (false, acc)
    else if PyEval(val, ds[0].cond) == NO then NumberDefault(m, val, ty, bounds, ds[1..], acc)
    else
      var str := if ds[0].value.PSym? then val(ds[0].value.sym) else if ds[0].value.PStr? then ds[0].value.str else "";
      match m.parse(str, Base(ty))
      case None => NumberDefault(m, val, ty, bounds, ds[1..], str)
      case Some(n) =>
        if bounds.Some? && n < bounds.value.0 then (true, m.show(bounds.value.0, ty))
        else if bounds.Some? && n > bounds.value.1 then (true, m.show(bounds.value.1, ty))
        else (true, str)
  }

  function UserNumberOk(m: Model, ty: SymType, bounds: Option<(int, int)>, str: string): bool {
    match m.parse(str, Base(ty))
    case None => false
    case Some(n) => bounds == None || bounds.value.0 <= n <= bounds.value.1
  }

  /** get_value of an int or hex symbol */
  function NumberValue(m: Model, u: Users, val: PyValues, s: Symbol): string {
    var bounds := ActiveBounds(m, val, s);
    if SymVisibility(m, val, s) != NO && s in u.val && UserNumberOk(m, s.Type(), bounds, u.val[s]) then u.val[s]
    else
      var (found, str) := NumberDefault(m, val, s.Type(), bounds, m.sym(s).props.defaults, "");
      if !found && bounds.Some? && bounds.value.0 > 0 then m.show(bounds.value.0, s.Type()) else str
  }

  /** Symbol.get_value on a symbol without cached value, given the values of the others */
  function Fresh(m: Model, u: Users, val: PyValues, s: Symbol): string {
    match s.Type()
    case Unknown => NameOf(s)
    case String => PyStringValue(m.sym(s).props, Find(u.val, s), val)
    case Int => NumberValue(m, u, val, s)
    case Hex => NumberValue(m, u, val, s)
    case _ =>
      match m.sym(s).choice
      case None => Letter(PyLogicalValue(m.sym(s).props, Find(u.val, s), val))
      case Some(c) => ItemValue(m, u, val, s, c)
  }

  // ---------- numbers keep to their range ----------

  /** The bounds are those of the first range whose condition is not n; a bound that is no number counts as 0. */
  lemma BoundsOfFirstRange(m: Model, val: PyValues, s: Symbol, k: nat)
    requires k < |m.sym(s).ranges| && PyEval(val, m.sym(s).ranges[k].cond) != NO
    requires forall i :: 0 <= i < k ==> PyEval(val, m.sym(s).ranges[i].cond) == NO
    ensures var r := m.sym(s).ranges[k];
            var low, high := m.parse(StrVal(val, r.low), Base(s.Type())), m.parse(StrVal(val, r.high), Base(s.Type()));
            ActiveBounds(m, val, s) == Some((if low.Some? then low.value else 0, if high.Some? then high.value else 0))
  {
    FirstPyRange(val, m.sym(s).ranges, k);
  }

  lemma {:induction false} FirstPyRange(val: PyValues, rs: seq<PyRange>, k: nat)
    requires k < |rs| && PyEval(val, rs[k].cond) != NO && forall i :: 0 <= i < k ==> PyEval(val, rs[i].cond) == NO
    ensures ActivePyRange(val, rs) == Some(rs[k])
  {
    if k > 0 {
      FirstPyRange(val, rs[1..], k - 1);
    }
  }

  /** Without a range whose condition is not n there are no bounds. */
  lemma NoBounds(m: Model, val: PyValues, s: Symbol)
    requires forall r :: r in m.sym(s).ranges ==> PyEval(val, r.cond) == NO
    ensures ActiveBounds(m, val, s) == None
  {
    NoPyRange(val, m.sym(s).ranges);
  }

  lemma {:induction false} NoPyRange(val: PyValues, rs: seq<PyRange>)
    requires forall r :: r in rs ==> PyEval(val, r.cond) == NO
    ensures ActivePyRange(val, rs) == None
  {
    if rs != [] {
      NoPyRange(val, rs[1..]);
    }
  }

  /** Python reads back the numbers it shows. */
  ghost predicate ReadsShown(m: Model, ty: SymType) {
    forall n: int {:trigger m.show(n, ty)} :: m.parse(m.show(n, ty), Base(ty)) == Some(n)
  }

  predicate Within(bounds: Option<(int, int)>, n: int) {
    bounds.Some? ==> bounds.value.0 <= n <= bounds.value.1
  }

  predicate Ordered(bounds: Option<(int, int)>) {
    bounds.Some? ==> bounds.value.0 <= bounds.value.1
  }

  /** The default that applies: the first one whose condition is not n and that is a number. It is taken as it is if it
      lies in the range, and otherwise replaced by the bound next to it. */
  lemma {:induction false} NumberDefaultIsFirst(m: Model, val: PyValues, ty: SymType, bounds: Option<(int, int)>,
                                                ds: seq<PyDefault>, acc: string) returns (k: nat)
    ensures k <= |ds| && forall i :: 0 <= i < k ==>
              PyEval(val, ds[i].cond) == NO || m.parse(DefaultText(val, ds[i]), Base(ty)) == None
    ensures NumberDefault(m, val, ty, bounds, ds, acc).0 <==> k < |ds|
    ensures k < |ds| ==>
              && PyEval(val, ds[k].cond) != NO && m.parse(DefaultText(val, ds[k]), Base(ty)).Some?
              && var n := m.parse(DefaultText(val, ds[k]), Base(ty)).value;
              && var str := NumberDefault(m, val, ty, bounds, ds, acc).1;
              && (Within(bounds, n) ==> str == DefaultText(val, ds[k]))
              && (bounds.Some? && n < bounds.value.0 ==> str == m.show(bounds.value.0, ty))
              && (bounds.Some? && bounds.value.0 <= n && n > bounds.value.1 ==> str == m.show(bounds.value.1, ty))
    ensures k == |ds| ==>
              var str := NumberDefault(m, val, ty, bounds, ds, acc).1; str == acc || m.parse(str, Base(ty)) == None
    decreases |ds|
  {
    k := 0;
    if ds != [] && (PyEval(val, ds[0].cond) == NO || m.parse(DefaultText(val, ds[0]), Base(ty)) == None) {
      var j := NumberDefaultIsFirst(m, val, ty, bounds, ds[1..],
                                    if PyEval(val, ds[0].cond) == NO then acc else DefaultText(val, ds[0]));
      k := j + 1;
    }
  }

  function DefaultText(val: PyValues, d: PyDefault): string {
    if d.value.PSym? then val(d.value.sym) else if d.value.PStr? then d.value.str else ""
  }

  /** A number lies in its range, unless it is the empty text of a symbol without any. */
  lemma NumberIsWithin(m: Model, u: Users, val: PyValues, s: Symbol)
    requires ReadsShown(m, s.Type()) && Ordered(ActiveBounds(m, val, s))
    ensures var r := NumberValue(m, u, val, s);
            r != "" && m.parse(r, Base(s.Type())).Some? ==>
              Within(ActiveBounds(m, val, s), m.parse(r, Base(s.Type())).value)
  {
    var bounds := ActiveBounds(m, val, s);
    var k := NumberDefaultIsFirst(m, val, s.Type(), bounds, m.sym(s).props.defaults, "");
    if bounds.Some? {
      assert m.parse(m.show(bounds.value.0, s.Type()), Base(s.Type())) == Some(bounds.value.0);
      assert m.parse(m.show(bounds.value.1, s.Type()), Base(s.Type())) == Some(bounds.value.1);
    }
  }

  /** Without a user value and a default that applies, it is the lower bound if that is positive, and else empty. */
  lemma NumberByItself(m: Model, u: Users, val: PyValues, s: Symbol)
    requires s !in u.val && forall d :: d in m.sym(s).props.defaults ==> PyEval(val, d.cond) == NO
    ensures var bounds := ActiveBounds(m, val, s);
            NumberValue(m, u, val, s)
            == if bounds.Some? && bounds.value.0 > 0 then m.show(bounds.value.0, s.Type()) else ""
  {
    NothingApplies(m, val, s.Type(), ActiveBounds(m, val, s), m.sym(s).props.defaults);
  }

  lemma {:induction false} NothingApplies(m: Model, val: PyValues, ty: SymType, bounds: Option<(int, int)>,
                                          ds: seq<PyDefault>)
    requires forall d :: d in ds ==> PyEval(val, d.cond) == NO
    ensures NumberDefault(m, val, ty, bounds, ds, "") == (false, "")
  {
    if ds != [] {
      NothingApplies(m, val, ty, bounds, ds[1..]);
    }
  }

  /** The user's number is taken exactly if the symbol can be seen and the number lies in the range. */
  lemma UserNumberIsTaken(m: Model, u: Users, val: PyValues, s: Symbol, n: int)
    requires s in u.val && m.parse(u.val[s], Base(s.Type())) == Some(n)
    ensures SymVisibility(m, val, s) != NO && Within(ActiveBounds(m, val, s), n) ==>
              NumberValue(m, u, val, s) == u.val[s]
    ensures ReadsShown(m, s.Type()) && Ordered(ActiveBounds(m, val, s)) && u.val[s] != "" &&
            NumberValue(m, u, val, s) == u.val[s] ==>
              Within(ActiveBounds(m, val, s), n)
  {
    if ReadsShown(m, s.Type()) && Ordered(ActiveBounds(m, val, s)) {
      NumberIsWithin(m, u, val, s);
    }
  }

  // ---------- which symbols a value is computed from ----------

  function PyPromptSymbols(ps: seq<Option<PyExpr>>): set<Symbol> {
    if ps == [] then {} else PySymbolsOpt(ps[0]) + PyPromptSymbols(ps[1..])
  }

  function PyDefaultSymbols(ds: seq<PyDefault>): set<Symbol> {
    if ds == [] then {} else PySymbols(ds[0].value) + PySymbolsOpt(ds[0].cond) + PyDefaultSymbols(ds[1..])
  }

  function PyRangeSymbols(rs: seq<PyRange>): set<Symbol> {
    if rs == [] then {}
    else AtomSymbols(rs[0].low) + AtomSymbols(rs[0].high) + PySymbolsOpt(rs[0].cond) + PyRangeSymbols(rs[1..])
  }

  function ConditionSymbols(ds: seq<ChoiceDefault>): set<Symbol> {
    if ds == [] then {} else PySymbolsOpt(ds[0].cond) + ConditionSymbols(ds[1..])
  }

  function ChoiceSymbols(c: PyChoice): set<Symbol> {
    PyPromptSymbols(c.prompts) + ConditionSymbols(c.defaults)
  }

  /** The symbols _build_dep finds in s: those whose `dep` s is added to. */
  function Mentioned(m: Model, s: Symbol): set<Symbol> {
    var x := m.sym(s);
    PyPromptSymbols(x.props.prompts) + PyDefaultSymbols(x.props.defaults) + PySymbols(x.props.revDep)
      + PyRangeSymbols(x.ranges)
      + (match x.choice case None => {} case Some(c) => ChoiceSymbols(m.choice(c)))
  }

  /** The other items of the same choice. */
  function Siblings(m: Model, s: Symbol): set<Symbol> {
    match m.sym(s).choice
    case None => {}
    case Some(c) => set t | t in m.choice(c).members && t != s
  }

  /** Everything the value of s can be computed from: for a choice item that includes what the
      visibility of the other items is computed from. */
  function Inputs(m: Model, s: Symbol): set<Symbol> {
    Mentioned(m, s) + set t, r | t in Siblings(m, s) && r in Mentioned(m, t) :: r
  }

  /** The special symbols y, m and n have no properties. */
  const SPECIAL: PySymbol := PySymbol(PyProperties([], [], PStr("n")), [], None, true)

  /** The structure parsing produces, with the dependencies acyclic once every choice is taken as a
      whole: its items have one rank, and what they mention ranks lower. */
  ghost predicate Proper(m: Model, rank: Symbol -> nat) {
    && {SymYes, SymMod, SymNo} <= m.syms
    && (forall s: Symbol {:trigger s.IsFixed()} :: s.IsFixed() ==> m.sym(s) == SPECIAL)
    && (forall s: Symbol, r: Symbol {:trigger r in Mentioned(m, s)} ::
          s in m.syms && r in Mentioned(m, s) ==> r in m.syms && rank(r) < rank(s))
    && (forall s :: s in m.syms && m.sym(s).choice.Some? ==>
          s.IsLogical() && s in m.choice(m.sym(s).choice.value).members)
    && (forall c: nat, s :: s in m.choice(c).members ==>
          s in m.syms && m.sym(s).choice == Some(c) && rank(s) == rank(m.choice(c).members[0]))
    && (forall c: nat, d :: d in m.choice(c).defaults ==> d.sym in m.choice(c).members)
  }

  /** What users can set: a choice's selection is one of its items. */
  ghost predicate ProperUsers(m: Model, u: Users) {
    forall c :: c in u.selection ==> u.selection[c] in m.choice(c).members
  }

  /** The users agree about s and about its choice. */
  ghost predicate SameUsers(m: Model, u: Users, u': Users, s: Symbol) {
    && Find(u.val, s) == Find(u'.val, s)
    && (m.sym(s).choice.Some? ==>
          var c := m.sym(s).choice.value;
          Find(u.selection, c) == Find(u'.selection, c) && Find(u.mode, c) == Find(u'.mode, c))
  }

  // ---------- a value depends on its inputs and on nothing else ----------

  lemma {:induction false} PyPromptsSplit(ps: seq<Option<PyExpr>>, k: nat)
    requires k < |ps|
    ensures PySymbolsOpt(ps[k]) <= PyPromptSymbols(ps)
    ensures PyPromptSymbols(ps[..k]) <= PyPromptSymbols(ps)
  {
    if k > 0 {
      PyPromptsSplit(ps[1..], k - 1);
      assert ps[..k][1..] == ps[1..][..k - 1];
    }
  }

  lemma {:induction false} PyAnyPromptAgrees(val: PyValues, val': PyValues, ps: seq<Option<PyExpr>>)
    requires PyAgreeOn(val, val', PyPromptSymbols(ps))
    ensures PyAnyPrompt(val, ps) == PyAnyPrompt(val', ps)
  {
    if ps != [] {
      PyPromptsSplit(ps, |ps| - 1);
      PyAnyPromptAgrees(val, val', ps[..|ps| - 1]);
      PyEvalAgrees(val, val', ps[|ps| - 1]);
    }
  }

  lemma {:induction false} PyActiveDefaultAgrees(val: PyValues, val': PyValues, ds: seq<PyDefault>)
    requires PyAgreeOn(val, val', PyDefaultSymbols(ds))
    ensures PyActiveDefault(val, ds) == PyActiveDefault(val', ds)
    ensures PyDefaultTri(val, ds) == PyDefaultTri(val', ds) && PyDefaultStr(val, ds) == PyDefaultStr(val', ds)
  {
    if ds != [] {
      PyEvalAgrees(val, val', ds[0].cond);
      PyEvalAgrees(val, val', Some(ds[0].value));
      PyActiveDefaultAgrees(val, val', ds[1..]);
    }
  }

  lemma {:induction false} ActivePyRangeAgrees(val: PyValues, val': PyValues, rs: seq<PyRange>)
    requires PyAgreeOn(val, val', PyRangeSymbols(rs))
    ensures ActivePyRange(val, rs) == ActivePyRange(val', rs)
    ensures ActivePyRange(val, rs).Some? ==>
              var r := ActivePyRange(val, rs).value;
              StrVal(val, r.low) == StrVal(val', r.low) && StrVal(val, r.high) == StrVal(val', r.high)
  {
    if rs != [] {
      PyEvalAgrees(val, val', rs[0].cond);
      ActivePyRangeAgrees(val, val', rs[1..]);
    }
  }

  lemma {:induction false} NumberDefaultAgrees(m: Model, val: PyValues, val': PyValues, ty: SymType,
                                               bounds: Option<(int, int)>, ds: seq<PyDefault>, acc: string)
    requires PyAgreeOn(val, val', PyDefaultSymbols(ds))
    ensures NumberDefault(m, val, ty, bounds, ds, acc) == NumberDefault(m, val', ty, bounds, ds, acc)
  {
    if ds != [] {
      PyEvalAgrees(val, val', ds[0].cond);
      var str := if ds[0].value.PSym? then val(ds[0].value.sym) else if ds[0].value.PStr? then ds[0].value.str else "";
      NumberDefaultAgrees(m, val, val', ty, bounds, ds[1..], acc);
      NumberDefaultAgrees(m, val, val', ty, bounds, ds[1..], str);
    }
  }

  lemma {:induction false} ChosenDefaultAgrees(m: Model, val: PyValues, val': PyValues, ds: seq<ChoiceDefault>,
                                             first: Symbol)
    requires PyAgreeOn(val, val', ConditionSymbols(ds))
    ensures ChosenDefault(m, val, ds, first) == ChosenDefault(m, val', ds, first)
    ensures ChosenDefault(m, val, ds, first) == first
            || exists d :: d in ds && d.sym == ChosenDefault(m, val, ds, first)
  {
    if ds != [] {
      PyEvalAgrees(val, val', ds[0].cond);
      ChosenDefaultAgrees(m, val, val', ds[1..], first);
      if PyEval(val, ds[0].cond) != NO {
        assert ds[0] in ds;
      } else if ChosenDefault(m, val, ds[1..], first) != first {
        var d :| d in ds[1..] && d.sym == ChosenDefault(m, val, ds[1..], first);
        assert d in ds;
      }
    }
  }

  lemma SymVisibilityAgrees(m: Model, val: PyValues, val': PyValues, s: Symbol)
    requires PyAgreeOn(val, val', Mentioned(m, s))
    ensures SymVisibility(m, val, s) == SymVisibility(m, val', s)
    ensures m.sym(s).choice.Some? ==>
              ChoiceVisibility(m, val, m.sym(s).choice.value) == ChoiceVisibility(m, val', m.sym(s).choice.value)
  {
    PyAnyPromptAgrees(val, val', m.sym(s).props.prompts);
    if m.sym(s).choice.Some? {
      PyAnyPromptAgrees(val, val', m.choice(m.sym(s).choice.value).prompts);
    }
  }

  lemma {:induction false} FirstVisibleAgrees(m: Model, val: PyValues, val': PyValues, ss: seq<Symbol>)
    requires forall s :: s in ss ==> PyAgreeOn(val, val', Mentioned(m, s))
    ensures FirstVisible(m, val, ss) == FirstVisible(m, val', ss)
  {
    if ss != [] {
      SymVisibilityAgrees(m, val, val', ss[0]);
      FirstVisibleAgrees(m, val, val', ss[1..]);
    }
  }

  /** What the visibility of the items of the choice of s and its defaults are computed from. */
  lemma ItemsAgree(m: Model, rank: Symbol -> nat, val: PyValues, val': PyValues, s: Symbol, c: nat)
    requires Proper(m, rank) && s in m.syms && m.sym(s).choice == Some(c) && PyAgreeOn(val, val', Inputs(m, s))
    ensures forall t :: t in m.choice(c).members ==>
              PyAgreeOn(val, val', Mentioned(m, t)) && SymVisibility(m, val, t) == SymVisibility(m, val', t)
    ensures PyAgreeOn(val, val', ConditionSymbols(m.choice(c).defaults))
    ensures ChoiceVisibility(m, val, c) == ChoiceVisibility(m, val', c)
  {
    SymVisibilityAgrees(m, val, val', s);
    assert ConditionSymbols(m.choice(c).defaults) <= Mentioned(m, s);
    hide SymVisibility, ChoiceVisibility;
    forall t | t in m.choice(c).members
      ensures PyAgreeOn(val, val', Mentioned(m, t)) && SymVisibility(m, val, t) == SymVisibility(m, val', t)
    {
      assert t != s ==> t in Siblings(m, s);
      SymVisibilityAgrees(m, val, val', t);
    }
  }

  lemma SelectionFromParts(m: Model, u: Users, u': Users, val: PyValues, val': PyValues, c: nat)
    requires Find(u.selection, c) == Find(u'.selection, c) && Find(u.mode, c) == Find(u'.mode, c)
    requires ChoiceVisibility(m, val, c) == ChoiceVisibility(m, val', c)
    requires c in u.selection ==> SymVisibility(m, val, u.selection[c]) == SymVisibility(m, val', u.selection[c])
    requires DefaultSelection(m, val, c) == DefaultSelection(m, val', c)
    ensures Mode(m, u, val, c) == Mode(m, u', val', c) && Selection(m, u, val, c) == Selection(m, u', val', c)
  {
    hide ChoiceVisibility, SymVisibility, DefaultSelection;
  }

  lemma DefaultSelectionAgrees(m: Model, val: PyValues, val': PyValues, c: nat)
    requires forall t :: t in m.choice(c).members ==>
               PyAgreeOn(val, val', Mentioned(m, t)) && SymVisibility(m, val, t) == SymVisibility(m, val', t)
    requires PyAgreeOn(val, val', ConditionSymbols(m.choice(c).defaults))
    requires forall d :: d in m.choice(c).defaults ==> d.sym in m.choice(c).members
    ensures DefaultSelection(m, val, c) == DefaultSelection(m, val', c)
  {
    hide SymVisibility, Mentioned;
    var members := m.choice(c).members;
    FirstVisibleAgrees(m, val, val', members);
    if members != [] {
      ChosenDefaultAgrees(m, val, val', m.choice(c).defaults, members[0]);
    }
  }

  /** Mode and selection of the choice of s. */
  lemma SelectionAgrees(m: Model, rank: Symbol -> nat, u: Users, u': Users, val: PyValues, val': PyValues,
                        s: Symbol, c: nat)
    requires Proper(m, rank) && ProperUsers(m, u) && s in m.syms && m.sym(s).choice == Some(c)
    requires SameUsers(m, u, u', s) && PyAgreeOn(val, val', Inputs(m, s))
    ensures Mode(m, u, val, c) == Mode(m, u', val', c)
    ensures ChoiceVisibility(m, val, c) == ChoiceVisibility(m, val', c)
    ensures Selection(m, u, val, c) == Selection(m, u', val', c)
  {
    hide SymVisibility, ChoiceVisibility, Mode, Selection, DefaultSelection, Inputs;
    ItemsAgree(m, rank, val, val', s, c);
    DefaultSelectionAgrees(m, val, val', c);
    SelectionFromParts(m, u, u', val, val', c);
  }

  lemma ItemValueFromParts(m: Model, u: Users, u': Users, val: PyValues, val': PyValues, s: Symbol, c: nat)
    requires SymVisibility(m, val, s) == SymVisibility(m, val', s)
    requires Mode(m, u, val, c) == Mode(m, u', val', c) && Selection(m, u, val, c) == Selection(m, u', val', c)
    requires Find(u.val, s) == Find(u'.val, s)
    ensures ItemValue(m, u, val, s, c) == ItemValue(m, u', val', s, c)
  {
  }

  lemma ItemValueAgrees(m: Model, rank: Symbol -> nat, u: Users, u': Users, val: PyValues, val': PyValues,
                        s: Symbol, c: nat)
    requires Proper(m, rank) && ProperUsers(m, u) && s in m.syms && m.sym(s).choice == Some(c)
    requires SameUsers(m, u, u', s) && PyAgreeOn(val, val', Inputs(m, s))
    ensures ItemValue(m, u, val, s, c) == ItemValue(m, u', val', s, c)
  {
    SymVisibilityAgrees(m, val, val', s);
    SelectionAgrees(m, rank, u, u', val, val', s, c);
    ItemValueFromParts(m, u, u', val, val', s, c);
  }

  lemma NumberValueAgrees(m: Model, u: Users, u': Users, val: PyValues, val': PyValues, s: Symbol)
    requires Find(u.val, s) == Find(u'.val, s) && PyAgreeOn(val, val', Mentioned(m, s))
    ensures NumberValue(m, u, val, s) == NumberValue(m, u', val', s)
  {
    var x := m.sym(s);
    SymVisibilityAgrees(m, val, val', s);
    ActivePyRangeAgrees(val, val', x.ranges);
    NumberDefaultAgrees(m, val, val', s.Type(), ActiveBounds(m, val, s), x.props.defaults, "");
  }

  lemma PlainValueAgrees(m: Model, user: Option<string>, val: PyValues, val': PyValues, s: Symbol)
    requires PyAgreeOn(val, val', Mentioned(m, s))
    ensures PyLogicalValue(m.sym(s).props, user, val) == PyLogicalValue(m.sym(s).props, user, val')
    ensures PyStringValue(m.sym(s).props, user, val) == PyStringValue(m.sym(s).props, user, val')
  {
    var p := m.sym(s).props;
    PyAnyPromptAgrees(val, val', p.prompts);
    PyActiveDefaultAgrees(val, val', p.defaults);
    PyEvalAgrees(val, val', Some(p.revDep));
  }

  lemma FreshFromParts(m: Model, u: Users, u': Users, val: PyValues, val': PyValues, s: Symbol)
    requires Find(u.val, s) == Find(u'.val, s)
    requires PyLogicalValue(m.sym(s).props, Find(u.val, s), val) == PyLogicalValue(m.sym(s).props, Find(u.val, s), val')
    requires PyStringValue(m.sym(s).props, Find(u.val, s), val) == PyStringValue(m.sym(s).props, Find(u.val, s), val')
    requires NumberValue(m, u, val, s) == NumberValue(m, u', val', s)
    requires m.sym(s).choice.Some? ==>
               ItemValue(m, u, val, s, m.sym(s).choice.value) == ItemValue(m, u', val', s, m.sym(s).choice.value)
    ensures Fresh(m, u, val, s) == Fresh(m, u', val', s)
  {
  }

  lemma FreshAgrees(m: Model, rank: Symbol -> nat, u: Users, u': Users, val: PyValues, val': PyValues, s: Symbol)
    requires Proper(m, rank) && ProperUsers(m, u) && s in m.syms
    requires SameUsers(m, u, u', s) && PyAgreeOn(val, val', Inputs(m, s))
    ensures Fresh(m, u, val, s) == Fresh(m, u', val', s)
    ensures SymVisibility(m, val, s) == SymVisibility(m, val', s)
  {
    SymVisibilityAgrees(m, val, val', s);
    PlainValueAgrees(m, Find(u.val, s), val, val', s);
    if m.sym(s).choice.Some? {
      ItemValueAgrees(m, rank, u, u', val, val', s, m.sym(s).choice.value);
    }
    NumberValueAgrees(m, u, u', val, val', s);
    FreshFromParts(m, u, u', val, val', s);
  }

  // ---------- the whole configuration ----------

  /** Every symbol has the value that follows from the others. */
  ghost predicate Means(m: Model, u: Users, val: PyValues) {
    forall s {:trigger Fresh(m, u, val, s)} :: s in m.syms ==> val(s) == Fresh(m, u, val, s)
  }

  /** The cache-free evaluation. */
  function Cacheless(m: Model, rank: Symbol -> nat, u: Users, s: Symbol): string
    requires Proper(m, rank)
    decreases rank(s)
  {
    Fresh(m, u, CachelessBelow(m, rank, u, rank(s)), s)
  }

  function CachelessBelow(m: Model, rank: Symbol -> nat, u: Users, n: nat): PyValues
    requires Proper(m, rank)
    decreases n, 0
  {
    (t: Symbol) => if rank(t) < n then Cacheless(m, rank, u, t) else ""
  }

  function CachelessValues(m: Model, rank: Symbol -> nat, u: Users): PyValues
    requires Proper(m, rank)
  {
    (s: Symbol) => Cacheless(m, rank, u, s)
  }

  lemma InputsRankLower(m: Model, rank: Symbol -> nat, s: Symbol, r: Symbol)
    requires Proper(m, rank) && s in m.syms && r in Inputs(m, s)
    ensures r in m.syms && rank(r) < rank(s)
  {
    if r !in Mentioned(m, s) {
      var t :| t in Siblings(m, s) && r in Mentioned(m, t);
      var c := m.sym(s).choice.value;
      assert t in m.choice(c).members && s in m.choice(c).members;
    }
  }

  lemma CachelessMeans(m: Model, rank: Symbol -> nat, u: Users)
    requires Proper(m, rank) && ProperUsers(m, u)
    ensures Means(m, u, CachelessValues(m, rank, u))
  {
    var val := CachelessValues(m, rank, u);
    forall s | s in m.syms ensures val(s) == Fresh(m, u, val, s) {
      forall r | r in Inputs(m, s) ensures rank(r) < rank(s) {
        InputsRankLower(m, rank, s, r);
      }
      FreshAgrees(m, rank, u, u, CachelessBelow(m, rank, u, rank(s)), val, s);
    }
  }

  lemma {:induction false} MeaningIsUnique(m: Model, rank: Symbol -> nat, u: Users, val: PyValues, val': PyValues,
                                         s: Symbol)
    requires Proper(m, rank) && ProperUsers(m, u) && Means(m, u, val) && Means(m, u, val') && s in m.syms
    ensures val(s) == val'(s)
    decreases rank(s)
  {
    forall r | r in Inputs(m, s) ensures val(r) == val'(r) {
      InputsRankLower(m, rank, s, r);
      MeaningIsUnique(m, rank, u, val, val', r);
    }
    FreshAgrees(m, rank, u, u, val, val', s);
  }
}
