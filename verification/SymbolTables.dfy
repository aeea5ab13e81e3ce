/** The memoised evaluator of support/kconfig/symbol.c: sym_calc_value and the functions it calls
    fill the fields of the symbols on demand, and SYMBOL_VALID marks the symbols that are done. */
module SymbolTables {
  import opened Tristates
  import opened Exprs
  import opened Numbers
  import opened Configuration

  const FIXED: set<Symbol> := {SymYes, SymMod, SymNo}

  const BLANK: Entry := Entry(SymVal("", NO), NO, NO, NO, false)

  /** Mentioned where the definition of a symbol's meaning is needed. */
  ghost predicate Defined(s: Symbol) {
    true
  }

  /** All symbols: `entries` holds what calculating a symbol stores in its fields, `valid` the
      symbols with SYMBOL_VALID set, `user` the user values of those with SYMBOL_DEF_USER set. */
  class SymbolTable {
    const kconfig: Kconfig
    /** An order along which the dependencies descend. */
    ghost const rank: Symbol -> nat

    var valid: set<Symbol>
    var entries: Symbol -> Entry
    var user: UserValues

    /** The values of the configuration, and everything that follows from them. */
    ghost var val: Values
    ghost var meaning: Symbol -> Entry
    /** Symbols whose SYMBOL_WRITE flag has been cleared since they were calculated. */
    ghost var cleared: set<Symbol>

    constructor (g: Kconfig, ghost rank: Symbol -> nat)
      requires Ranked(g, rank)
      ensures kconfig == g && this.rank == rank && user == map[] && valid == FIXED && cleared == {}
      ensures Coherent({})
    {
      kconfig := g;
      this.rank := rank;
      valid, cleared := FIXED, {};
      entries := (s: Symbol) => if s.IsFixed() then BLANK.(curr := FixedValue(s)) else BLANK;
      user := map[];
      new;
      Interpret();
      assert Defined(SymYes) && Defined(SymMod) && Defined(SymNo);
    }

    /** The fields of s; all of them are zero before the first calculation. */
    function At(s: Symbol): Entry
      reads this`entries
    {
      entries(s)
    }

    // ---------- what the cache promises ----------

    /** val and meaning are what the user values make of the configuration. */
    ghost predicate Interpreted()
      reads this`val, this`meaning, this`user
    {
      && Ranked(kconfig, rank)
      && (forall s: Symbol :: meaning(s).curr == val(s))
      && (forall s: Symbol {:trigger Defined(s)} :: meaning(s) == CalcEntry(s, kconfig(s), UserOf(user, s), val))
    }

    lemma InterpretedSolves()
      requires Interpreted()
      ensures Solves(kconfig, user, val)
    {
      forall s: Symbol ensures val(s) == Calc(s, kconfig(s), UserOf(user, s), val) {
        assert Defined(s);
      }
    }

    ghost method Interpret()
      requires Ranked(kconfig, rank)
      modifies this`val, this`meaning
      ensures Interpreted()
    {
      SolutionExists(kconfig, rank, user);
      val := Solution(kconfig, rank, user);
      var g, v, u := kconfig, val, user;
      meaning := s => CalcEntry(s, g(s), UserOf(u, s), v);
    }

    /** What is stored for s is what evaluating the configuration afresh would give. */
    ghost predicate Right(s: Symbol)
      reads this
    {
      if s.Type().Unknown? then At(s).curr == meaning(s).curr
      else At(s) == meaning(s).(write := meaning(s).write && s !in cleared)
    }

    /** The cache is right about every symbol marked valid, except those being calculated now:
        they are marked before their value is known. */
    ghost predicate Coherent(pending: set<Symbol>)
      reads this
    {
      && Interpreted()
      && FIXED <= valid && pending <= valid && cleared <= valid
      && forall s :: s in valid && s !in pending ==> Right(s)
    }

    /** A query only ever adds to the cache. */
    twostate predicate Grown()
      reads this
    {
      old(valid) <= valid && forall t :: t in old(valid) ==> At(t) == old(At(t))
    }

    /** The same while s is being calculated. */
    twostate predicate GrownExcept(s: Symbol)
      reads this
    {
      old(valid) <= valid && forall t :: t in old(valid) && t != s ==> At(t) == old(At(t))
    }

    /** Assign to the fields of a symbol that is being calculated. */
    method Store(s: Symbol, e: Entry, ghost pending: set<Symbol>)
      requires Coherent(pending) && s in pending
      modifies this`entries
      ensures Coherent(pending)
      ensures At(s) == e && forall t :: t != s ==> At(t) == old(At(t))
    {
      var before := entries;
      entries := t => if t == s then e else before(t);
    }

    // ---------- sym_calc_value ----------

    /** sym_calc_value */
    method CalcValue(s: Symbol, ghost pending: set<Symbol>)
      requires Coherent(pending)
      requires forall t :: t in pending ==> rank(s) < rank(t)
      modifies this`valid, this`entries
      ensures Coherent(pending) && Grown()
      ensures s in valid && At(s).curr == val(s)
      decreases rank(s), 6
    {
      if s in valid {
        return;
      }
      valid := valid + {s};
      if s.Type().Unknown? {
        Store(s, At(s).(curr := FixedValue(s)), pending + {s});
        assert Defined(s);
        return;
      }
      Store(s, At(s).(write := false), pending + {s});
      CalcVisibility(s, pending + {s});
      if s.IsLogical() {
        Store(s, At(s).(curr := FixedValue(SymNo)), pending + {s});
        CalcLogical(s, pending + {s});
      } else {
        CalcText(s, pending + {s});
      }
    }

    /** sym_calc_visibility */
    method CalcVisibility(s: Symbol, ghost pending: set<Symbol>)
      requires Coherent(pending) && s in pending
      requires forall t :: t in pending ==> rank(s) <= rank(t)
      modifies this`valid, this`entries
      ensures Coherent(pending) && GrownExcept(s)
      ensures At(s) == old(At(s)).(visible := Visibility(val, kconfig(s)), dirDep := DirDep(val, kconfig(s)),
                                   revDep := RevDep(val, s, kconfig(s)))
      decreases rank(s), 4
    {
      var tri := PromptTri(s, pending);
      if tri == MOD {
        tri := YES;
      }
      Store(s, At(s).(visible := tri), pending);
      StoreDirDep(s, pending);
      StoreRevDep(s, pending);
    }

    /** The first loop of sym_calc_visibility. */
    method PromptTri(s: Symbol, ghost pending: set<Symbol>) returns (tri: Tri)
      requires Coherent(pending)
      requires forall t :: t in pending ==> rank(s) <= rank(t)
      modifies this`valid, this`entries
      ensures Coherent(pending) && Grown()
      ensures tri == AnyPrompt(val, kconfig(s).prompts)
      decreases rank(s), 3
    {
      var ps := kconfig(s).prompts;
      tri := NO;
      for i := 0 to |ps|
        invariant Coherent(pending) && Grown()
        invariant tri == AnyPrompt(val, ps[..i])
      {
        PromptSymbolsSplit(ps, i);
        var t := CalcExprOpt(ps[i], YES, s, pending);
        assert ps[..i + 1][..i] == ps[..i];
        tri := Max(tri, t);
      }
      assert ps[..|ps|] == ps;
    }

    method StoreDirDep(s: Symbol, ghost pending: set<Symbol>)
      requires Coherent(pending) && s in pending
      requires forall t :: t in pending ==> rank(s) <= rank(t)
      modifies this`valid, this`entries
      ensures Coherent(pending) && GrownExcept(s)
      ensures At(s) == old(At(s)).(dirDep := DirDep(val, kconfig(s)))
      decreases rank(s), 3
    {
      var dir := CalcExprOpt(kconfig(s).dirDep, YES, s, pending);
      if dir == MOD {
        dir := YES;
      }
      Store(s, At(s).(dirDep := dir), pending);
    }

    method StoreRevDep(s: Symbol, ghost pending: set<Symbol>)
      requires Coherent(pending) && s in pending
      requires forall t :: t in pending ==> rank(s) <= rank(t)
      modifies this`valid, this`entries
      ensures Coherent(pending) && GrownExcept(s)
      ensures At(s) == old(At(s)).(revDep := RevDep(val, s, kconfig(s)))
      decreases rank(s), 3
    {
      var rev := CalcExprOpt(kconfig(s).revDep, NO, s, pending);
      if rev == MOD && s.IsLogical() {
        rev := YES;
      }
      Store(s, At(s).(revDep := rev), pending);
    }

    /** The part of sym_calc_value for bool and tristate symbols. */
    method CalcLogical(s: Symbol, ghost pending: set<Symbol>)
      requires Coherent(pending) && s in pending && s.IsLogical() && s !in cleared
      requires forall t :: t in pending ==> rank(s) <= rank(t)
      requires At(s) == Entry(FixedValue(SymNo), Visibility(val, kconfig(s)), DirDep(val, kconfig(s)),
                              RevDep(val, s, kconfig(s)), false)
      modifies this`valid, this`entries
      ensures Coherent(pending) && GrownExcept(s)
      ensures Right(s)
      decreases rank(s), 5
    {
      var write := false;
      var tri := NO;
      var asked := false;
      if At(s).visible != NO {
        write := true;
        if s in user {
          tri := Min(user[s].tri, At(s).visible);
          asked := true;
        }
      }
      if !asked {
        if At(s).revDep != NO {
          write := true;
        }
        var d, cond := DefaultProp(s, pending);
        if d.Some? {
          write := true;
          var value := CalcExpr(d.value.value, s, pending);
          tri := Min(value, cond);
        }
      }
      tri := Max(tri, At(s).revDep);
      if tri == MOD {
        tri := YES;
      }
      Store(s, At(s).(curr := SymVal("n", tri), write := write), pending);
      assert Defined(s);
    }

    /** The part of sym_calc_value for string, int and hex symbols. */
    method CalcText(s: Symbol, ghost pending: set<Symbol>)
      requires Coherent(pending) && s in pending && !s.IsLogical() && !s.Type().Unknown? && s !in cleared
      requires forall t :: t in pending ==> rank(s) <= rank(t)
      requires At(s).visible == Visibility(val, kconfig(s)) && At(s).dirDep == DirDep(val, kconfig(s))
      requires At(s).revDep == RevDep(val, s, kconfig(s)) && !At(s).write
      modifies this`valid, this`entries
      ensures Coherent(pending) && GrownExcept(s)
      ensures Right(s)
      decreases rank(s), 5
    {
      Store(s, At(s).(curr := SymVal("", NO)), pending);
      ChooseText(s, pending);
      if !s.Type().String? {
        ValidateRange(s, pending);
      }
      assert Defined(s);
    }

    /** The user value if the symbol is visible and has one, else the default. */
    method ChooseText(s: Symbol, ghost pending: set<Symbol>)
      requires Coherent(pending) && s in pending && !s.IsLogical() && !s.Type().Unknown?
      requires forall t :: t in pending ==> rank(s) <= rank(t)
      requires At(s).visible == Visibility(val, kconfig(s)) && At(s).curr == SymVal("", NO) && !At(s).write
      modifies this`valid, this`entries
      ensures Coherent(pending) && GrownExcept(s)
      ensures At(s) == old(At(s)).(
                curr := SymVal(if Visibility(val, kconfig(s)) != NO && s in user then user[s].str
                               else DefaultStr(val, kconfig(s).defaults), NO),
                write := Writes(s, kconfig(s), val))
      decreases rank(s), 5, 0
    {
      if At(s).visible != NO && s in user {
        Store(s, At(s).(curr := SymVal(user[s].str, NO), write := true), pending);
      } else {
        var found, str := DefaultText(s, pending);
        Store(s, At(s).(curr := SymVal(str, NO), write := found || At(s).visible != NO), pending);
      }
    }

    /** The default of a string, int or hex symbol: the value of the symbol its default names. */
    method DefaultText(s: Symbol, ghost pending: set<Symbol>) returns (found: bool, str: string)
      requires Coherent(pending)
      requires forall t :: t in pending ==> rank(s) <= rank(t)
      modifies this`valid, this`entries
      ensures Coherent(pending) && Grown()
      ensures var d := ActiveDefault(val, kconfig(s).defaults); found == (d.Some? && d.value.value.Sym?)
      ensures str == DefaultStr(val, kconfig(s).defaults)
      decreases rank(s), 4
    {
      var d, _ := DefaultProp(s, pending);
      found := d.Some? && d.value.value.Sym?;
      str := "";
      if found {
        var ds := d.value.value.sym;
        assert ds in Symbols(d.value.value);
        CalcValue(ds, pending);
        str := At(ds).curr.str;
      }
    }

    /** sym_validate_range */
    method ValidateRange(s: Symbol, ghost pending: set<Symbol>)
      requires Coherent(pending) && s in pending && (s.Type().Int? || s.Type().Hex?)
      requires forall t :: t in pending ==> rank(s) <= rank(t)
      modifies this`valid, this`entries
      ensures Coherent(pending) && GrownExcept(s)
      ensures var x := old(At(s)).curr;
              At(s) == old(At(s)).(curr := x.(str := Clamp(val, s.Type(), kconfig(s).ranges, x.str)))
      decreases rank(s), 4
    {
      assert s in valid;
      hide Interpreted, Right, Coherent, StrToLL, ShowNumber, BoundValue, ActiveRange, Deps;
      var r := RangeProp(s, pending);
      if r == None {
        return;
      }
      var bound := ViolatedBound(s, r.value, StrToLL(At(s).curr.str, Base(s.Type())), pending);
      if bound.Some? {
        Store(s, At(s).(curr := At(s).curr.(str := ShowNumber(bound.value, s.Type()))), pending);
      }
    }

    /** The bound n has to be replaced by, if any. */
    method ViolatedBound(s: Symbol, r: Range, n: int, ghost pending: set<Symbol>) returns (bound: Option<int>)
      requires Coherent(pending) && r.low in Deps(kconfig(s)) && r.high in Deps(kconfig(s))
      requires forall t :: t in pending ==> rank(s) <= rank(t)
      modifies this`valid, this`entries
      ensures Coherent(pending) && Grown()
      ensures var low, high := BoundValue(val, r.low, Base(s.Type())), BoundValue(val, r.high, Base(s.Type()));
              bound == if n < low then Some(low) else if n > high then Some(high) else None
      decreases rank(s), 3, 1
    {
      hide Interpreted, Right, Coherent, BoundValue;
      var low := RangeVal(r.low, Base(s.Type()), s, pending);
      if n < low {
        return Some(low);
      }
      var high := RangeVal(r.high, Base(s.Type()), s, pending);
      bound := if n > high then Some(high) else None;
    }

    /** sym_get_default_prop, with the value the default's condition has. */
    method DefaultProp(s: Symbol, ghost pending: set<Symbol>) returns (d: Option<Default>, cond: Tri)
      requires Coherent(pending)
      requires forall t :: t in pending ==> rank(s) <= rank(t)
      modifies this`valid, this`entries
      ensures Coherent(pending) && Grown()
      ensures d == ActiveDefault(val, kconfig(s).defaults)
      ensures d.Some? ==> cond == EvalOpt(val, d.value.cond) && Symbols(d.value.value) <= Deps(kconfig(s))
      decreases rank(s), 3
    {
      var ds := kconfig(s).defaults;
      cond := NO;
      for i := 0 to |ds|
        invariant Coherent(pending) && Grown()
        invariant ActiveDefault(val, ds) == ActiveDefault(val, ds[i..])
        invariant DefaultSymbols(ds[i..]) <= DefaultSymbols(ds)
      {
        ActiveDefaultFrom(val, ds, i);
        cond := CalcExprOpt(ds[i].cond, YES, s, pending);
        if cond != NO {
          return Some(ds[i]), cond;
        }
      }
      d := None;
    }

    /** sym_get_range_prop */
    method RangeProp(s: Symbol, ghost pending: set<Symbol>) returns (r: Option<Range>)
      requires Coherent(pending)
      requires forall t :: t in pending ==> rank(s) <= rank(t)
      modifies this`valid, this`entries
      ensures Coherent(pending) && Grown()
      ensures r == ActiveRange(val, kconfig(s).ranges)
      ensures r.Some? ==> {r.value.low, r.value.high} <= Deps(kconfig(s))
      decreases rank(s), 3
    {
      hide Interpreted, Right;
      var rs := kconfig(s).ranges;
      for i := 0 to |rs|
        invariant Coherent(pending) && Grown()
        invariant ActiveRange(val, rs) == ActiveRange(val, rs[i..])
        invariant RangeSymbols(rs[i..]) <= RangeSymbols(rs)
      {
        ActiveRangeFrom(val, rs, i);
        var cond := CalcExprOpt(rs[i].cond, YES, s, pending);
        if cond != NO {
          return Some(rs[i]);
        }
      }
      r := None;
    }

    /** sym_get_range_val */
    method RangeVal(b: Symbol, base: int, ghost s: Symbol, ghost pending: set<Symbol>) returns (n: int)
      requires Coherent(pending) && IsBase(base) && b in Deps(kconfig(s))
      requires forall t :: t in pending ==> rank(s) <= rank(t)
      modifies this`valid, this`entries
      ensures Coherent(pending) && Grown()
      ensures n == BoundValue(val, b, base)
      decreases rank(s), 3, 0
    {
      CalcValue(b, pending);
      n := StrToLL(At(b).curr.str, if b.Type().Int? then 10 else if b.Type().Hex? then 16 else base);
    }

    /** expr_calc_value: both operands of && and || are always evaluated. */
    method CalcExpr(e: Expr, ghost s: Symbol, ghost pending: set<Symbol>) returns (t: Tri)
      requires Coherent(pending) && Symbols(e) <= Deps(kconfig(s))
      requires forall t :: t in pending ==> rank(s) <= rank(t)
      modifies this`valid, this`entries
      ensures Coherent(pending) && Grown()
      ensures t == Eval(val, e)
      decreases rank(s), 1, e
    {
      match e
      case Sym(x) =>
        CalcValue(x, pending);
        t := At(x).curr.tri;
      case Equal(l, r) =>
        var same := CompareSymbols(l, r, s, pending);
        t := OfBool(same);
      case Unequal(l, r) =>
        var same := CompareSymbols(l, r, s, pending);
        t := OfBool(!same);
      case Not(a) =>
        t := CalcExpr(a, s, pending);
        t := Negate(t);
      case Bin(op, l, r) =>
        t := CalcExpr(l, s, pending);
        var t2 := CalcExpr(r, s, pending);
        t := op.Apply(t, t2);
    }

    /** Calculate two symbols and compare their strings. */
    method CompareSymbols(l: Symbol, r: Symbol, ghost s: Symbol, ghost pending: set<Symbol>) returns (same: bool)
      requires Coherent(pending) && l in Deps(kconfig(s)) && r in Deps(kconfig(s))
      requires forall t :: t in pending ==> rank(s) <= rank(t)
      modifies this`valid, this`entries
      ensures Coherent(pending) && Grown()
      ensures same == (StringValue(l, val(l)) == StringValue(r, val(r)))
      decreases rank(s), 0
    {
      CalcValue(l, pending);
      CalcValue(r, pending);
      same := StringValue(l, At(l).curr) == StringValue(r, At(r).curr);
    }

    method CalcExprOpt(e: Option<Expr>, ifNull: Tri, ghost s: Symbol, ghost pending: set<Symbol>) returns (t: Tri)
      requires Coherent(pending) && SymbolsOpt(e) <= Deps(kconfig(s))
      requires forall t :: t in pending ==> rank(s) <= rank(t)
      modifies this`valid, this`entries
      ensures Coherent(pending) && Grown()
      ensures t == if e.Some? then Eval(val, e.value) else ifNull
      decreases rank(s), 2
    {
      if e.Some? {
        t := CalcExpr(e.value, s, pending);
      } else {
        t := ifNull;
      }
    }

    // ---------- changing values ----------

    /** The constants are calculated once and for all; the rest of the cache may be stale. */
    ghost predicate ConstantsIntact()
      reads this
    {
      forall s :: s in FIXED ==> At(s).curr == FixedValue(s)
    }

    lemma ConstantsAreIntact()
      requires Coherent({})
      ensures ConstantsIntact()
    {
      assert Defined(SymYes) && Defined(SymMod) && Defined(SymNo);
    }

    /** sym_clear_all_valid. The three constants are not in the symbol hash and stay valid. */
    method ClearAllValid()
      requires Interpreted() && ConstantsIntact()
      modifies this`valid, this`cleared
      ensures Coherent({}) && valid == FIXED && cleared == {}
    {
      valid := FIXED;
      cleared := {};
      assert Defined(SymYes) && Defined(SymMod) && Defined(SymNo);
    }

    /** sym_tristate_within_range, for a symbol outside choices */
    predicate WithinRange(s: Symbol, x: Tri)
      reads this
    {
      && At(s).visible != NO
      && s.IsLogical()
      && x != MOD
      && At(s).visible > At(s).revDep
      && At(s).revDep <= x <= At(s).visible
    }

    /** sym_set_tristate_value. It trusts the value and the visibility stored for s, so what it
        promises about the configuration is promised for symbols that are marked valid: the request
        is accepted exactly when it is the current value or in range, and once accepted it is the
        value s has, whether or not the cache had to be cleared. */
    method SetTristateValue(s: Symbol, x: Tri) returns (ok: bool)
      requires Coherent({})
      modifies this`valid, this`user, this`cleared, this`val, this`meaning
      ensures ok == old(At(s).curr.tri == x || WithinRange(s, x))
      ensures !ok ==> user == old(user) && valid == old(valid)
      ensures ok ==> user == WithUser(old(user), s, x)
      ensures ok && old(At(s).curr.tri) != x ==> valid == FIXED && cleared == {}
      ensures old(s in valid && s.IsLogical()) && ok ==> val(s).tri == x
      ensures old(s in valid && s.IsLogical()) || old(At(s).curr.tri) != x ==> Coherent({})
    {
      var current := At(s).curr.tri;
      if current != x && !WithinRange(s, x) {
        return false;
      }
      assert Defined(s);
      ConstantsAreIntact();
      SetUser(s, x);
      if current != x {
        ClearAllValid();
      }
      ok := true;
    }

    /** Record a user value. The configuration then means something else, unless it is the value
        the symbol has anyway. */
    method SetUser(s: Symbol, x: Tri)
      requires Interpreted()
      modifies this`user, this`val, this`meaning
      ensures Interpreted()
      ensures user == WithUser(old(user), s, x)
      ensures s.IsLogical() && old(val)(s).tri == x ==> val == old(val) && meaning == old(meaning)
      ensures s.IsLogical() && x != MOD && Visibility(old(val), kconfig(s)) != NO
              && RevDep(old(val), s, kconfig(s)) <= x <= Visibility(old(val), kconfig(s))
              ==> val(s).tri == x
    {
      ghost var users := user;
      InterpretedSolves();
      user := WithUser(user, s, x);
      if s.IsLogical() && val(s).tri == x {
        OwnValueAsUserValue(s, kconfig(s), UserOf(users, s), user[s], val);
        forall t: Symbol ensures meaning(t) == CalcEntry(t, kconfig(t), UserOf(user, t), val) {
          assert Defined(t) && (t != s ==> UserOf(user, t) == UserOf(users, t));
        }
      } else {
        ghost var before := val;
        Interpret();
        InterpretedSolves();
        if s.IsLogical() && x != MOD && Visibility(before, kconfig(s)) != NO
           && RevDep(before, s, kconfig(s)) <= x <= Visibility(before, kconfig(s)) {
          AcceptedValueIsTaken(kconfig, rank, users, before, val, s, user[s]);
        }
      }
    }

    // ---------- runs ----------

    /** Any sequence of queries and changes: the answers are those of an evaluator that keeps the
        user values and nothing else. */
    method Run(commands: seq<Command>) returns (answers: seq<Answer>)
      requires Coherent({})
      requires forall c :: c in commands && c.Set? ==> c.sym.IsLogical()
      modifies this
      ensures Coherent({})
      ensures answers == Play(kconfig, rank, old(user), commands)
    {
      answers := [];
      assert commands[0..] == commands;
      for i := 0 to |commands|
        invariant Coherent({})
        invariant answers + Play(kconfig, rank, user, commands[i..]) == Play(kconfig, rank, old(user), commands)
      {
        assert commands[i..][1..] == commands[i + 1..];
        var answer := Execute(commands[i]);
        answers := answers + [answer];
      }
      assert commands[|commands|..] == [];
    }

    method Execute(c: Command) returns (answer: Answer)
      requires Coherent({})
      requires c.Set? ==> c.sym.IsLogical()
      modifies this
      ensures Coherent({})
      ensures (answer, user) == PlayOne(kconfig, rank, old(user), c)
    {
      CalcValue(c.sym, {});
      SameSolution(c.sym);
      if c.Query? {
        answer := Value(At(c.sym).curr);
      } else {
        JudgedByEntries(c.sym, c.x);
        var ok := SetTristateValue(c.sym, c.x);
        answer := Done(ok);
      }
    }

    lemma JudgedByEntries(s: Symbol, x: Tri)
      requires Coherent({}) && s in valid && s.IsLogical()
      ensures Accepts(Solution(kconfig, rank, user), kconfig(s), s, x) <==> At(s).curr.tri == x || WithinRange(s, x)
    {
      SolutionEntries(s);
      assert Defined(s);
    }

    lemma SameSolution(s: Symbol)
      requires Interpreted()
      ensures val(s) == Solution(kconfig, rank, user)(s)
    {
      InterpretedSolves();
      SolutionExists(kconfig, rank, user);
      SolutionIsUnique(kconfig, rank, user, val, Solution(kconfig, rank, user), s);
    }

    lemma SolutionEntries(s: Symbol)
      requires Interpreted()
      ensures var sol := Solution(kconfig, rank, user);
              && Visibility(val, kconfig(s)) == Visibility(sol, kconfig(s))
              && RevDep(val, s, kconfig(s)) == RevDep(sol, s, kconfig(s))
      ensures val(s) == Solution(kconfig, rank, user)(s)
    {
      var sol := Solution(kconfig, rank, user);
      forall t | t in Deps(kconfig(s)) ensures val(t) == sol(t) {
        SameSolution(t);
      }
      PartsAgree(s, kconfig(s), val, sol);
      SameSolution(s);
    }
  }

  /** What a user does: look at a symbol, or set one. */
  datatype Command = Query(sym: Symbol) | Set(sym: Symbol, x: Tri)

  datatype Answer = Value(value: SymVal) | Done(ok: bool)

  /** May s be set to x, judging by the values the configuration has? */
  predicate Accepts(val: Values, p: Properties, s: Symbol, x: Tri) {
    val(s).tri == x
    || (x != MOD && Visibility(val, p) > RevDep(val, s, p) && RevDep(val, s, p) <= x <= Visibility(val, p))
  }

  function WithUser(user: UserValues, s: Symbol, x: Tri): UserValues {
    user[s := SymVal(if s in user then user[s].str else "", x)]
  }

  /** The answers of an evaluator without any cache. */
  function Play(g: Kconfig, rank: Symbol -> nat, user: UserValues, commands: seq<Command>): seq<Answer>
    requires Ranked(g, rank)
    decreases |commands|
  {
    if commands == [] then []
    else
      var (answer, user') := PlayOne(g, rank, user, commands[0]);
      [answer] + Play(g, rank, user', commands[1..])
  }

  function PlayOne(g: Kconfig, rank: Symbol -> nat, user: UserValues, c: Command): (Answer, UserValues)
    requires Ranked(g, rank)
  {
    var val := Solution(g, rank, user);
    match c
    case Query(s) => (Value(val(s)), user)
    case Set(s, x) =>
      var ok := Accepts(val, g(s), s, x);
      (Done(ok), if ok then WithUser(user, s, x) else user)
  }
}
