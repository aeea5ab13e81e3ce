/** A boolean choice in support/kconfig/symbol.c: its members are calculated through the choice symbol,
    and the choice symbol looks at all its members. */
module Choices {
  import opened Tristates
  import opened Exprs
  import opened Configuration
  import opened Submenus
  import opened Visibility
  import opened Duplicates

  /** `default sym if cond` of a choice */
  datatype ChoiceDefault = ChoiceDefault(sym: Symbol, cond: Option<Expr>)

  /** A choice: its symbol, its members in order, its defaults, the prompt conditions of all of them, and
      what selects the choice symbol. */
  datatype Group = Group(cs: Symbol, members: seq<Symbol>, defaults: seq<ChoiceDefault>,
                         prompts: Symbol -> seq<Option<Expr>>, revDep: Option<Expr>)

  /** The values of all other symbols, with value t for the choice symbol. */
  function View(g: Group, outside: Values, t: Tri): Values {
    s => if s == g.cs then SymVal("n", t) else outside(s)
  }

  /** The visibility of a member when the choice symbol has value t. */
  function Vis(g: Group, outside: Values, m: Symbol, t: Tri): Tri {
    Visible(View(g, outside, t), g.prompts(m))
  }

  function Visible(val: Values, ps: seq<Option<Expr>>): Tri {
    Promote(AnyPrompt(val, ps))
  }

  /** The value of the choice symbol before its members are looked at. */
  function Mode(g: Group, outside: Values, hasUser: bool, userTri: Tri): Tri {
    var visible := Visible(outside, g.prompts(g.cs));
    var rev := if g.revDep.Some? then Promote(Eval(outside, g.revDep.value)) else NO;
    Promote(Max(if visible != NO && hasUser then Min(userTri, visible) else NO, rev))
  }

  function FirstDefault(g: Group, outside: Values, ds: seq<ChoiceDefault>): Option<Symbol> {
    if ds == [] then None
    else if EvalOpt(View(g, outside, YES), ds[0].cond) != NO && Vis(g, outside, ds[0].sym, YES) != NO then
      Some(ds[0].sym)
    else FirstDefault(g, outside, ds[1..])
  }

  function FirstVisible(g: Group, outside: Values, ms: seq<Symbol>): Option<Symbol> {
    if ms == [] then None
    else if Vis(g, outside, ms[0], YES) != NO then Some(ms[0])
    else FirstVisible(g, outside, ms[1..])
  }

  /** sym_choice_default */
  function DefaultMember(g: Group, outside: Values): Option<Symbol> {
    var d := FirstDefault(g, outside, g.defaults);
    if d.Some? then d else FirstVisible(g, outside, g.members)
  }

  /** sym_calc_choice, for a choice in y mode */
  function Chosen(g: Group, outside: Values, userSel: Option<Symbol>): Option<Symbol> {
    if userSel.Some? && Vis(g, outside, userSel.value, YES) != NO then userSel else DefaultMember(g, outside)
  }

  /** A member cannot be seen while the choice symbol is n. */
  ghost predicate Guarded(g: Group, cond: Option<Expr>) {
    forall v: Valuation :: v.WellFormed() && v.tri(g.cs) == NO ==> ValueOpt(v, cond) == NO
  }

  ghost predicate Proper(g: Group) {
    && g.cs.Type().Boolean? && g.cs !in g.members
    && (forall i, j :: 0 <= i < j < |g.members| ==> g.members[i] != g.members[j])
    && (forall m :: m in g.members ==> m.Type().Boolean?)
    && (forall d :: d in g.defaults ==> d.sym in g.members)
    && (forall m, c :: m in g.members && c in g.prompts(m) ==> Guarded(g, c))
    && (forall c :: c in g.prompts(g.cs) ==> g.cs !in SymbolsOpt(c))
    && g.cs !in SymbolsOpt(g.revDep)
    && Independent(g)
  }

  /** No member occurs in a condition of the choice: what is calculated is about the values of other symbols. */
  ghost predicate Independent(g: Group) {
    forall m :: m in g.members ==>
      && m !in SymbolsOpt(g.revDep)
      && (forall s, c :: (s in g.members || s == g.cs) && c in g.prompts(s) ==> m !in SymbolsOpt(c))
      && (forall d :: d in g.defaults ==> m !in SymbolsOpt(d.cond))
  }

  /** The conditions menu_finalize gives to choice members are guarded: first that of the entry ... */
  lemma InheritedConditionsAreGuarded(g: Group, dep: Option<Expr>)
    ensures Guarded(g, Inherit(Some(Sym(g.cs)), dep)) && NnfOpt(Inherit(Some(Sym(g.cs)), dep))
  {
    InheritedIsNnf(Some(Sym(g.cs)), dep, true);
    forall v: Valuation | v.WellFormed() && v.tri(g.cs) == NO ensures ValueOpt(v, Inherit(Some(Sym(g.cs)), dep)) == NO {
      InheritMeansBoth(v, Some(Sym(g.cs)), dep);
    }
  }

  /** ... and then those of its prompts, which inherit from it and may go through expr_trans_bool. */
  lemma InheritedPromptsAreGuarded(g: Group, dep: Option<Expr>, own: Option<Expr>, tristate: bool)
    ensures Guarded(g, InheritPrompt(Inherit(Some(Sym(g.cs)), dep), own, tristate))
  {
    var base := Inherit(Some(Sym(g.cs)), dep);
    InheritedConditionsAreGuarded(g, dep);
    forall v: Valuation | v.WellFormed() && v.tri(g.cs) == NO
      ensures ValueOpt(v, InheritPrompt(base, own, tristate)) == NO
    {
      InheritMeansBoth(v, base, own);
      TransBoolStepIsInvisible(v, base, own);
    }
  }

  // ---------- visibility and selection ----------

  lemma {:induction false} GuardedPrompts(g: Group, val: Values, ps: seq<Option<Expr>>)
    requires ValuationOf(val).WellFormed() && val(g.cs).tri == NO && forall c :: c in ps ==> Guarded(g, c)
    ensures AnyPrompt(val, ps) == NO
  {
    if ps != [] {
      GuardedPrompts(g, val, ps[..|ps| - 1]);
      assert ps[|ps| - 1] in ps;
      assert ValuationOf(val).tri(g.cs) == NO;
    }
  }

  lemma ViewAt(g: Group, outside: Values, t: Tri, s: Symbol)
    ensures var v, w := ValuationOf(View(g, outside, t)), ValuationOf(outside);
            if s == g.cs then v.tri(s) == t && v.str(s) == StringValue(s, SymVal("n", t))
            else v.tri(s) == w.tri(s) && v.str(s) == w.str(s)
  {
  }

  lemma ViewIsWellFormed(g: Group, outside: Values, t: Tri)
    requires Proper(g) && ValuationOf(outside).WellFormed() && t != MOD
    ensures ValuationOf(View(g, outside, t)).WellFormed()
  {
    var v, w := ValuationOf(View(g, outside, t)), ValuationOf(outside);
    assert !g.cs.IsConst() && g.cs.IsLogical();
    forall s: Symbol | s != g.cs ensures v.tri(s) == w.tri(s) && v.str(s) == w.str(s) {
    }
    forall s: Symbol | s.IsLogical() ensures v.str(s) == Letter(v.tri(s)) {
      ViewAt(g, outside, t, s);
      if s != g.cs {
        assert w.str(s) == Letter(w.tri(s));
      } else {
        assert StringValue(s, SymVal("n", t)) == Letter(t);
      }
    }
    assert forall n: ConstName :: Const(n) != g.cs;
  }

  /** While the choice symbol is n, no member is visible. */
  lemma HiddenWithoutChoice(g: Group, outside: Values, m: Symbol)
    requires Proper(g) && ValuationOf(outside).WellFormed() && m in g.members
    ensures Vis(g, outside, m, NO) == NO
  {
    ViewIsWellFormed(g, outside, NO);
    GuardedPrompts(g, View(g, outside, NO), g.prompts(m));
  }

  lemma {:induction false} NotInPrompts(s: Symbol, ps: seq<Option<Expr>>)
    requires forall c :: c in ps ==> s !in SymbolsOpt(c)
    ensures s !in PromptSymbols(ps)
  {
    if ps != [] {
      NotInPrompts(s, ps[1..]);
    }
  }

  /** A member whose conditions do not mention the choice symbol is never visible. */
  lemma HiddenWithoutMention(g: Group, outside: Values, m: Symbol, t: Tri)
    requires Proper(g) && ValuationOf(outside).WellFormed() && m in g.members
    requires forall c :: c in g.prompts(m) ==> g.cs !in SymbolsOpt(c)
    ensures Vis(g, outside, m, t) == NO
  {
    NotInPrompts(g.cs, g.prompts(m));
    AnyPromptAgrees(View(g, outside, t), View(g, outside, NO), g.prompts(m));
    HiddenWithoutChoice(g, outside, m);
  }

  lemma {:induction false} FirstVisibleIsVisible(g: Group, outside: Values, ms: seq<Symbol>)
    ensures var r := FirstVisible(g, outside, ms);
            if r.Some? then r.value in ms && Vis(g, outside, r.value, YES) != NO
            else forall m :: m in ms ==> Vis(g, outside, m, YES) == NO
  {
    if ms != [] {
      FirstVisibleIsVisible(g, outside, ms[1..]);
    }
  }

  /** sym_choice_default takes the first default that applies to a visible member, and without any the first visible
      member. */
  lemma {:induction false} FirstDefaultComesFirst(g: Group, outside: Values, ds: seq<ChoiceDefault>) returns (k: nat)
    ensures k <= |ds| && FirstDefault(g, outside, ds) == if k < |ds| then Some(ds[k].sym) else None
    ensures forall i :: 0 <= i < k ==> !Applies(g, outside, ds[i])
    ensures k < |ds| ==> Applies(g, outside, ds[k])
  {
    k := 0;
    if ds != [] && !Applies(g, outside, ds[0]) {
      var j := FirstDefaultComesFirst(g, outside, ds[1..]);
      k := j + 1;
    }
  }

  predicate Applies(g: Group, outside: Values, d: ChoiceDefault) {
    EvalOpt(View(g, outside, YES), d.cond) != NO && Vis(g, outside, d.sym, YES) != NO
  }

  lemma {:induction false} FirstVisibleComesFirst(g: Group, outside: Values, ms: seq<Symbol>) returns (k: nat)
    ensures k <= |ms| && FirstVisible(g, outside, ms) == if k < |ms| then Some(ms[k]) else None
    ensures forall i :: 0 <= i < k ==> Vis(g, outside, ms[i], YES) == NO
    ensures k < |ms| ==> Vis(g, outside, ms[k], YES) != NO
  {
    k := 0;
    if ms != [] && Vis(g, outside, ms[0], YES) == NO {
      var j := FirstVisibleComesFirst(g, outside, ms[1..]);
      k := j + 1;
    }
  }

  /** Whom the choice falls to: the visible choice of the user, or else that of the first default that applies, or else
      the first visible member. */
  lemma ChosenInOrder(g: Group, outside: Values, userSel: Option<Symbol>)
    ensures userSel.Some? && Vis(g, outside, userSel.value, YES) != NO ==> Chosen(g, outside, userSel) == userSel
    ensures !(userSel.Some? && Vis(g, outside, userSel.value, YES) != NO) ==>
              && (forall k :: 0 <= k < |g.defaults| && Applies(g, outside, g.defaults[k])
                              && (forall i :: 0 <= i < k ==> !Applies(g, outside, g.defaults[i])) ==>
                    Chosen(g, outside, userSel) == Some(g.defaults[k].sym))
              && ((forall d :: d in g.defaults ==> !Applies(g, outside, d)) ==>
                    forall k :: 0 <= k < |g.members| && Vis(g, outside, g.members[k], YES) != NO
                                && (forall i :: 0 <= i < k ==> Vis(g, outside, g.members[i], YES) == NO) ==>
                      Chosen(g, outside, userSel) == Some(g.members[k]))
  {
    hide Applies, Vis;
    var j := FirstDefaultComesFirst(g, outside, g.defaults);
    var n := FirstVisibleComesFirst(g, outside, g.members);
  }

  lemma {:induction false} FirstDefaultIsVisible(g: Group, outside: Values, ds: seq<ChoiceDefault>)
    ensures var r := FirstDefault(g, outside, ds);
            r.Some? ==> Vis(g, outside, r.value, YES) != NO && exists d :: d in ds && d.sym == r.value
  {
    if ds != [] {
      FirstDefaultIsVisible(g, outside, ds[1..]);
      var r := FirstDefault(g, outside, ds);
      if r.Some? && r == FirstDefault(g, outside, ds[1..]) {
        var d :| d in ds[1..] && d.sym == r.value;
        assert d in ds;
      } else if r.Some? {
        assert ds[0] in ds;
      }
    }
  }

  /** Somebody is chosen exactly when a member is visible, and then a visible member. */
  lemma ChosenIffVisible(g: Group, outside: Values, userSel: Option<Symbol>)
    requires Proper(g) && (userSel.Some? ==> userSel.value in g.members)
    ensures var r := Chosen(g, outside, userSel);
            && (r.Some? <==> exists m :: m in g.members && Vis(g, outside, m, YES) != NO)
            && (r.Some? ==> r.value in g.members && Vis(g, outside, r.value, YES) != NO)
  {
    FirstDefaultIsVisible(g, outside, g.defaults);
    FirstVisibleIsVisible(g, outside, g.members);
  }

  // ---------- the mode ----------

  /** The choice is y exactly if it can be seen and the user has said so, or if it is selected. */
  lemma ModeExactly(g: Group, outside: Values, hasUser: bool, userTri: Tri)
    ensures Mode(g, outside, hasUser, userTri) == YES <==>
              || (Visible(outside, g.prompts(g.cs)) != NO && hasUser && userTri != NO)
              || (g.revDep.Some? && Eval(outside, g.revDep.value) != NO)
    ensures Mode(g, outside, hasUser, userTri) != MOD
  {
  }

  /** menu_finalize selects a choice that is not optional to m where its prompt can be seen; there it is y. */
  lemma PlainChoiceIsYes(g: Group, outside: Values, cond: Option<Expr>, hasUser: bool, userTri: Tri)
    requires ValuationOf(outside).WellFormed() && g.prompts(g.cs) == [cond]
    requires g.revDep == AllocAnd(cond, Some(Sym(SymMod)))
    ensures Mode(g, outside, hasUser, userTri) == YES <==> EvalOpt(outside, cond) != NO
  {
    assert [cond][..0] == [] && AnyPrompt(outside, [cond]) == EvalOpt(outside, cond);
    assert Value(ValuationOf(outside), Sym(SymMod)) == MOD;
    assert Eval(outside, g.revDep.value) == Min(EvalOpt(outside, cond), MOD);
  }

  // ---------- the values of members are not looked at ----------

  lemma MembersNotInPrompts(g: Group, s: Symbol)
    requires Proper(g) && (s in g.members || s == g.cs)
    ensures forall m :: m in g.members ==> m !in PromptSymbols(g.prompts(s))
  {
    forall m | m in g.members ensures m !in PromptSymbols(g.prompts(s)) {
      NotInPrompts(m, g.prompts(s));
    }
  }

  /** What `outside` says about the members has no influence on the choice. */
  lemma MembersDoNotMatter(g: Group, outside: Values, outside': Values, hasUser: bool, userTri: Tri, m: Symbol, t: Tri)
    requires Proper(g) && m in g.members && forall s :: s !in g.members ==> outside(s) == outside'(s)
    ensures Mode(g, outside, hasUser, userTri) == Mode(g, outside', hasUser, userTri)
    ensures Vis(g, outside, m, t) == Vis(g, outside', m, t)
  {
    MembersNotInPrompts(g, g.cs);
    AnyPromptAgrees(outside, outside', g.prompts(g.cs));
    EvalOptAgrees(outside, outside', g.revDep);
    MembersNotInPrompts(g, m);
    AnyPromptAgrees(View(g, outside, t), View(g, outside', t), g.prompts(m));
  }

  // ---------- the evaluation ----------

  /** The fields of the choice symbol and of its members. */
  class Choice {
    const g: Group
    const outside: Values

    /** SYMBOL_VALID, SYMBOL_DEF_USER, `visible`, `curr.tri`, `def[S_DEF_USER].tri`; and `curr.val` and
        `def[S_DEF_USER].val` of the choice symbol. */
    var valid: set<Symbol>
    var hasUser: set<Symbol>
    var visible: Symbol -> Tri
    var tri: Symbol -> Tri
    var userTri: Symbol -> Tri
    var sel: Option<Symbol>
    var userSel: Option<Symbol>

    /** What the choice amounts to since everything was last invalidated. */
    ghost var mode: Tri
    ghost var chosen: Option<Symbol>

    ghost predicate Fixed()
      reads this`userSel
    {
      Proper(g) && ValuationOf(outside).WellFormed() && (userSel.Some? ==> userSel.value in g.members)
    }

    ghost predicate Settled()
      reads this`mode, this`chosen, this`valid, this`hasUser, this`userTri, this`userSel
    {
      && mode != MOD
      && chosen == (if mode == YES then Chosen(g, outside, userSel) else None)
      && (g.cs !in valid ==> mode == Mode(g, outside, g.cs in hasUser, userTri(g.cs)))
    }

    /** The value the choice symbol ends up with. */
    ghost function Final(): Tri
      reads this`chosen
    {
      if chosen.Some? then YES else NO
    }

    ghost predicate RightMember(m: Symbol)
      reads this`visible, this`tri, this`chosen
    {
      && visible(m) == Vis(g, outside, m, Final())
      && tri(m) == (if visible(m) == YES && chosen == Some(m) then YES else NO)
    }

    /** What is stored for valid symbols is right, except for members being calculated now. */
    ghost predicate Coherent(pending: set<Symbol>)
      reads this
    {
      && Fixed() && Settled()
      && (g.cs in valid ==> tri(g.cs) == Final() && sel == chosen)
      && (forall m :: m in valid && m in g.members && m !in pending ==> RightMember(m))
    }

    /** In the middle of sym_calc_choice: the choice symbol counts as valid, and as y. */
    ghost predicate Choosing()
      reads this
    {
      Fixed() && g.cs in valid && tri(g.cs) == YES
    }

    /** Before and after that: nothing is calculated twice. */
    twostate predicate Grown()
      reads this
    {
      && old(valid) <= valid && mode == old(mode) && chosen == old(chosen)
      && (old(g.cs in valid) ==>
            valid == old(valid) && visible == old(visible) && tri == old(tri) && sel == old(sel)
            && hasUser == old(hasUser))
    }

    method SetVisible(s: Symbol, t: Tri)
      modifies this`visible
      ensures visible(s) == t && forall r :: r != s ==> visible(r) == old(visible)(r)
    {
      var before := visible;
      visible := r => if r == s then t else before(r);
    }

    method SetTri(s: Symbol, t: Tri)
      modifies this`tri
      ensures tri(s) == t && forall r :: r != s ==> tri(r) == old(tri)(r)
    {
      var before := tri;
      tri := r => if r == s then t else before(r);
    }

    /** What an evaluation now takes for the value of the choice symbol. */
    ghost function Now(): Tri
      reads this`valid, this`tri, this`chosen
    {
      if g.cs in valid then tri(g.cs) else Final()
    }

    twostate predicate Kept(pending: set<Symbol>)
      reads this
    {
      && Grown() && Now() == old(Now())
      && (old(Coherent(pending)) ==> Coherent(pending)) && (old(Choosing()) ==> Choosing())
    }

    /** expr_calc_value: every symbol that occurs is calculated. */
    method EvalExpr(e: Expr, ghost pending: set<Symbol>) returns (t: Tri)
      requires Coherent(pending) || Choosing()
      modifies this`valid, this`visible, this`tri, this`sel, this`hasUser
      ensures Kept(pending)
      ensures g.cs in Symbols(e) ==> g.cs in valid
      ensures t == Eval(View(g, outside, Now()), e)
      decreases if g.cs in valid then 1 else 3, 0, e
    {
      match e
      case Sym(s) => t := SymbolTri(s, pending);
      case Equal(l, r) => t := Compare(l, r, pending); t := OfBool(t == YES);
      case Unequal(l, r) => t := Compare(l, r, pending); t := OfBool(t != YES);
      case Not(a) =>
        t := EvalExpr(a, pending);
        t := Negate(t);
      case Bin(op, l, r) =>
        t := EvalExpr(l, pending);
        var t2 := EvalExpr(r, pending);
        t := op.Apply(t, t2);
    }

    method SymbolTri(s: Symbol, ghost pending: set<Symbol>) returns (t: Tri)
      requires Coherent(pending) || Choosing()
      modifies this`valid, this`visible, this`tri, this`sel, this`hasUser
      ensures Kept(pending)
      ensures s == g.cs ==> g.cs in valid
      ensures t == View(g, outside, Now())(s).tri
      decreases if g.cs in valid then 0 else 2, 1
    {
      if s == g.cs {
        if g.cs !in valid {
          CalcChoice(pending);
        }
        t := tri(s);
      } else {
        t := outside(s).tri;
      }
    }

    /** Do two symbols have the same string? */
    method Compare(l: Symbol, r: Symbol, ghost pending: set<Symbol>) returns (t: Tri)
      requires Coherent(pending) || Choosing()
      modifies this`valid, this`visible, this`tri, this`sel, this`hasUser
      ensures Kept(pending)
      ensures l == g.cs || r == g.cs ==> g.cs in valid
      ensures t == OfBool(StringValue(l, View(g, outside, Now())(l)) == StringValue(r, View(g, outside, Now())(r)))
      decreases if g.cs in valid then 0 else 2, 2
    {
      var lt := SymbolTri(l, pending);
      var rt := SymbolTri(r, pending);
      var lv := if l == g.cs then SymVal("n", lt) else outside(l);
      var rv := if r == g.cs then SymVal("n", rt) else outside(r);
      t := OfBool(StringValue(l, lv) == StringValue(r, rv));
    }

    method EvalExprOpt(e: Option<Expr>, ghost pending: set<Symbol>) returns (t: Tri)
      requires Coherent(pending) || Choosing()
      modifies this`valid, this`visible, this`tri, this`sel, this`hasUser
      ensures Kept(pending)
      ensures g.cs in SymbolsOpt(e) ==> g.cs in valid
      ensures t == EvalOpt(View(g, outside, Now()), e)
      decreases if g.cs in valid then 1 else 3, 1
    {
      t := YES;
      if e.Some? {
        t := EvalExpr(e.value, pending);
      }
    }

    /** The loop of sym_calc_visibility over the prompts. */
    method PromptTri(ps: seq<Option<Expr>>, ghost pending: set<Symbol>) returns (t: Tri)
      requires Coherent(pending) || Choosing()
      modifies this`valid, this`visible, this`tri, this`sel, this`hasUser
      ensures Kept(pending)
      ensures g.cs !in valid ==> forall c :: c in ps ==> g.cs !in SymbolsOpt(c)
      ensures t == AnyPrompt(View(g, outside, Now()), ps)
      decreases if g.cs in valid then 1 else 3, 2
    {
      hide Coherent, Choosing, Fixed, Settled, EvalOpt, Vis;
      t := NO;
      for i := 0 to |ps|
        invariant Coherent(pending) || Choosing()
        invariant Kept(pending)
        invariant g.cs !in valid ==> forall j :: 0 <= j < i ==> g.cs !in SymbolsOpt(ps[j])
        invariant t == AnyPrompt(View(g, outside, Now()), ps[..i])
      {
        var cond := EvalExprOpt(ps[i], pending);
        assert ps[..i + 1][..i] == ps[..i];
        t := Max(t, cond);
      }
      assert ps[..|ps|] == ps;
    }

    /** sym_calc_visibility of a member */
    method CalcVisibility(m: Symbol, ghost pending: set<Symbol>)
      requires (Coherent(pending) && m in pending) || Choosing()
      requires m in g.members
      modifies this`valid, this`visible, this`tri, this`sel, this`hasUser
      ensures old(valid) <= valid && mode == old(mode) && chosen == old(chosen) && Now() == old(Now())
      ensures old(g.cs in valid) ==>
              valid == old(valid) && tri == old(tri) && sel == old(sel) && hasUser == old(hasUser)
      ensures old(g.cs in valid) ==> forall s :: s != m ==> visible(s) == old(visible)(s)
      ensures old(Coherent(pending)) ==> Coherent(pending)
      ensures visible(m) == Vis(g, outside, m, Now())
      ensures g.cs !in valid ==> visible(m) == NO
      decreases if g.cs in valid then 1 else 3, 3
    {
      var t := PromptTri(g.prompts(m), pending);
      if t == MOD {
        t := YES;
      }
      if g.cs !in valid {
        HiddenWithoutMention(g, outside, m, Now());
      }
      SetVisible(m, t);
    }

    /** sym_calc_value of the choice symbol */
    method CalcChoice(ghost pending: set<Symbol>)
      requires Coherent(pending) && g.cs !in valid
      modifies this`valid, this`visible, this`tri, this`sel, this`hasUser
      ensures Grown() && Now() == old(Now()) && Coherent(pending) && g.cs in valid
      decreases 2, 0
    {
      assert g.cs !in g.members;
      hide Vis, Chosen, Proper, Visible, Mode;
      StartChoice();
      if tri(g.cs) == YES {
        Choose(pending);
      }
    }

    /** Up to its switch: the choice symbol counts as valid, with the value it has without its members. */
    method StartChoice()
      requires Fixed() && Settled() && g.cs !in valid
      modifies this`valid, this`visible, this`tri, this`sel
      ensures valid == old(valid) + {g.cs} && sel == None && tri(g.cs) == mode
      ensures forall s :: s != g.cs ==> visible(s) == old(visible)(s) && tri(s) == old(tri)(s)
    {
      hide Chosen, Proper, Visible, Mode;
      valid := valid + {g.cs};
      ChoiceVisibility();
      sel := None;
      var t := ChoiceTri();
      SetTri(g.cs, t);
    }

    /** The case of y: members that are calculated already are right about themselves. */
    method Choose(ghost pending: set<Symbol>)
      requires Choosing() && mode == YES && chosen == Chosen(g, outside, userSel)
      requires forall m :: m in valid && m in g.members && m !in pending ==> RightMember(m)
      modifies this`valid, this`visible, this`tri, this`sel, this`hasUser
      ensures valid == old(valid) && mode == old(mode) && chosen == old(chosen)
      ensures tri(g.cs) == Final() && sel == chosen
      ensures forall m :: m in valid && m in g.members && m !in pending ==> RightMember(m)
      decreases 1, 6
    {
      VisibilitiesStay();
      hide Vis, Chosen, Proper;
      CalcChosen();
    }

    /** If nobody is visible while the choice is y, nobody is when it falls back to n. */
    lemma VisibilitiesStay()
      requires Fixed() && mode == YES && chosen == Chosen(g, outside, userSel)
      ensures forall m :: m in g.members ==> Vis(g, outside, m, Final()) == Vis(g, outside, m, YES)
      ensures g.cs !in g.members
    {
      ChosenIffVisible(g, outside, userSel);
      forall m | m in g.members ensures Vis(g, outside, m, Final()) == Vis(g, outside, m, YES) {
        HiddenWithoutChoice(g, outside, m);
      }
    }

    /** The value of the choice symbol, from its user value and its reverse dependencies. */
    method ChoiceTri() returns (t: Tri)
      requires visible(g.cs) == Visible(outside, g.prompts(g.cs))
      ensures t == Mode(g, outside, g.cs in hasUser, userTri(g.cs))
    {
      t := NO;
      if visible(g.cs) != NO && g.cs in hasUser {
        t := Min(userTri(g.cs), visible(g.cs));
      }
      var rev := NO;
      if g.revDep.Some? {
        rev := Eval(outside, g.revDep.value);
        if rev == MOD {
          rev := YES;
        }
      }
      t := Max(t, rev);
      if t == MOD {
        t := YES;
      }
    }

    /** sym_calc_visibility of the choice symbol, whose conditions are about other symbols. */
    method ChoiceVisibility()
      modifies this`visible
      ensures visible(g.cs) == Visible(outside, g.prompts(g.cs))
      ensures forall s :: s != g.cs ==> visible(s) == old(visible)(s)
    {
      var ps := g.prompts(g.cs);
      var t := NO;
      for i := 0 to |ps|
        invariant t == AnyPrompt(outside, ps[..i])
      {
        assert ps[..i + 1][..i] == ps[..i];
        t := Max(t, EvalOpt(outside, ps[i]));
      }
      assert ps[..|ps|] == ps;
      SetVisible(g.cs, if t == MOD then YES else t);
    }

    /** sym_calc_choice. A visible member that the user has not decided about makes the choice undecided
        as well. */
    method CalcChosen()
      requires Choosing()
      modifies this`valid, this`visible, this`tri, this`sel, this`hasUser
      ensures valid == old(valid) && mode == old(mode) && chosen == old(chosen)
      ensures sel == Chosen(g, outside, userSel)
      ensures tri(g.cs) == (if sel.Some? then YES else NO) && forall s :: s != g.cs ==> tri(s) == old(tri)(s)
      ensures forall m :: m in g.members ==> visible(m) == Vis(g, outside, m, YES)
      ensures forall s :: s !in g.members ==> visible(s) == old(visible)(s)
      decreases 1, 5
    {
      hide Vis, Chosen, Guarded, DefaultMember;
      var decided := CalcVisibilities();
      if !decided {
        hasUser := hasUser - {g.cs};
      }
      sel := ChooseMember();
      if sel == None {
        SetTri(g.cs, NO);
      }
    }

    /** Its first loop: the visibilities, and whether the user has decided about all visible members. */
    method CalcVisibilities() returns (decided: bool)
      requires Choosing()
      modifies this`valid, this`visible, this`tri, this`sel, this`hasUser
      ensures Choosing() && valid == old(valid) && mode == old(mode) && chosen == old(chosen)
      ensures tri == old(tri) && hasUser == old(hasUser)
      ensures forall m :: m in g.members ==> visible(m) == Vis(g, outside, m, YES)
      ensures forall s :: s !in g.members ==> visible(s) == old(visible)(s)
      ensures decided <==> forall m :: m in g.members && visible(m) != NO ==> m in hasUser
      decreases 1, 4
    {
      hide Vis, Coherent, Proper, Settled, RightMember;
      decided := true;
      for i := 0 to |g.members|
        invariant Choosing() && tri == old(tri) && hasUser == old(hasUser) && valid == old(valid)
        invariant forall j :: 0 <= j < i ==> visible(g.members[j]) == Vis(g, outside, g.members[j], YES)
        invariant forall s :: s !in g.members ==> visible(s) == old(visible)(s)
        invariant mode == old(mode) && chosen == old(chosen)
        invariant decided <==> forall j :: 0 <= j < i && visible(g.members[j]) != NO ==> g.members[j] in hasUser
      {
        assert g.members[i] in g.members;
        CalcVisibility(g.members[i], {});
        if visible(g.members[i]) != NO && g.members[i] !in hasUser {
          decided := false;
        }
      }
    }

    /** Its end: the member the user chose, if it is visible, or a default. */
    method ChooseMember() returns (r: Option<Symbol>)
      requires Choosing() && forall m :: m in g.members ==> visible(m) == Vis(g, outside, m, YES)
      ensures r == Chosen(g, outside, userSel)
    {
      if userSel.Some? && visible(userSel.value) != NO {
        return userSel;
      }
      r := ChooseDefault();
    }

    /** sym_choice_default */
    method ChooseDefault() returns (r: Option<Symbol>)
      requires Choosing() && forall m :: m in g.members ==> visible(m) == Vis(g, outside, m, YES)
      ensures r == DefaultMember(g, outside)
    {
      r := FirstDefaultThatApplies();
      if r == None {
        r := FirstVisibleMember();
      }
    }

    method FirstDefaultThatApplies() returns (r: Option<Symbol>)
      requires Choosing() && forall m :: m in g.members ==> visible(m) == Vis(g, outside, m, YES)
      ensures r == FirstDefault(g, outside, g.defaults)
    {
      hide Vis;
      for i := 0 to |g.defaults|
        invariant FirstDefault(g, outside, g.defaults) == FirstDefault(g, outside, g.defaults[i..])
      {
        assert g.defaults[i..][1..] == g.defaults[i + 1..] && g.defaults[i] in g.defaults;
        var cond := EvalOpt(View(g, outside, tri(g.cs)), g.defaults[i].cond);
        if cond != NO && visible(g.defaults[i].sym) != NO {
          return Some(g.defaults[i].sym);
        }
      }
      r := None;
    }

    method FirstVisibleMember() returns (r: Option<Symbol>)
      requires forall m :: m in g.members ==> visible(m) == Vis(g, outside, m, YES)
      ensures r == FirstVisible(g, outside, g.members)
    {
      hide Vis;
      for i := 0 to |g.members|
        invariant FirstVisible(g, outside, g.members) == FirstVisible(g, outside, g.members[i..])
      {
        assert g.members[i..][1..] == g.members[i + 1..] && g.members[i] in g.members;
        if visible(g.members[i]) != NO {
          return Some(g.members[i]);
        }
      }
      r := None;
    }

    /** sym_calc_value of a member */
    method CalcMember(m: Symbol)
      requires Coherent({}) && m in g.members
      modifies this`valid, this`visible, this`tri, this`sel, this`hasUser
      ensures Coherent({}) && mode == old(mode) && chosen == old(chosen) && old(valid) <= valid && m in valid
    {
      if m in valid {
        return;
      }
      assert m != g.cs;
      hide Vis, Mode, Chosen, Proper, Visible;
      valid := valid + {m};
      CalcVisibility(m, {m});
      MemberVisible(m);
      StoreMember(m);
    }

    /** The value of a member, once its visibility is known. */
    method StoreMember(m: Symbol)
      requires Coherent({m}) && m in g.members && m != g.cs && visible(m) == Vis(g, outside, m, Final())
      requires visible(m) != NO ==> sel == chosen
      modifies this`tri
      ensures Coherent({})
    {
      hide Vis, Mode, Chosen, Proper, Visible;
      SetTri(m, if visible(m) == YES && sel == Some(m) then YES else NO);
    }

    /** A visible member means that the choice is y, and calculated. */
    lemma MemberVisible(m: Symbol)
      requires Coherent({m}) && m in g.members && visible(m) == Vis(g, outside, m, Now())
      requires g.cs !in valid ==> visible(m) == NO
      ensures visible(m) == Vis(g, outside, m, Final())
      ensures visible(m) != NO ==> g.cs in valid && chosen.Some? && sel == chosen
      ensures m != g.cs
    {
      HiddenWithoutChoice(g, outside, m);
    }

    // ---------- what the user sees ----------

    /** sym_clear_all_valid */
    method ClearAllValid()
      requires Fixed()
      modifies this`valid, this`mode, this`chosen
      ensures Coherent({}) && valid == {}
      ensures mode == Mode(g, outside, g.cs in hasUser, userTri(g.cs))
    {
      valid := {};
      mode := Mode(g, outside, g.cs in hasUser, userTri(g.cs));
      chosen := if mode == YES then Chosen(g, outside, userSel) else None;
    }

    /** Calculate all members and count. In y mode exactly one member is y if any member can be visible,
        and otherwise none is; the choice symbol is then y or n accordingly. */
    method Recalculate()
      requires Fixed()
      modifies this
      ensures Coherent({}) && forall m :: m in g.members ==> m in valid
      ensures userSel == old(userSel) && userTri == old(userTri)
      ensures mode == Mode(g, outside, g.cs in old(hasUser), old(userTri)(g.cs))
      ensures AtMostOne()
      ensures mode == YES ==>
                ((exists m :: m in g.members && tri(m) == YES)
                 <==> (exists m :: m in g.members && Vis(g, outside, m, YES) != NO))
      ensures forall m :: m in g.members && tri(m) == YES ==> mode == YES && Vis(g, outside, m, YES) != NO
    {
      hide Vis, Mode, Chosen, Proper, Guarded, RightMember, Independent;
      ClearAllValid();
      for i := 0 to |g.members|
        invariant Coherent({}) && userSel == old(userSel) && userTri == old(userTri)
        invariant mode == Mode(g, outside, g.cs in old(hasUser), old(userTri)(g.cs))
        invariant forall j :: 0 <= j < i ==> g.members[j] in valid
      {
        assert g.members[i] in g.members;
        CalcMember(g.members[i]);
      }
      ExactlyOne();
    }

    /** Never more than one member is y. */
    ghost predicate AtMostOne()
      reads this`tri
    {
      forall m, n :: m in g.members && n in g.members && tri(m) == YES && tri(n) == YES ==> m == n
    }

    lemma ExactlyOne()
      requires Coherent({}) && forall m :: m in g.members ==> m in valid
      ensures AtMostOne()
      ensures mode == YES ==>
                ((exists m :: m in g.members && tri(m) == YES)
                 <==> (exists m :: m in g.members && Vis(g, outside, m, YES) != NO))
      ensures forall m :: m in g.members && tri(m) == YES ==> mode == YES && Vis(g, outside, m, YES) != NO
    {
      ChosenIffVisible(g, outside, userSel);
      if mode == YES && chosen.Some? {
        MembersAreNotMod(chosen.value);
        assert RightMember(chosen.value);
      }
      forall m | m in g.members ensures RightMember(m) {
      }
    }

    lemma MembersAreNotMod(m: Symbol)
      ensures Vis(g, outside, m, YES) != MOD
    {
    }

    /** sym_tristate_within_range, for a member */
    predicate WithinRange(m: Symbol, x: Tri)
      reads this`visible
    {
      visible(m) != NO && x != MOD && (if visible(m) == YES then x == YES else NO <= x <= visible(m))
    }

    /** sym_set_tristate_value, for a member */
    method SetMember(m: Symbol, x: Tri) returns (ok: bool)
      requires Coherent({}) && m in g.members && m in valid
      modifies this`hasUser, this`userSel, this`userTri, this`valid, this`mode, this`chosen
      ensures Fixed() && (ok <==> old(tri(m) == x || WithinRange(m, x)))
      ensures !ok ==> Coherent({}) && userSel == old(userSel) && userTri == old(userTri) && hasUser == old(hasUser)
      ensures ok ==> userTri(m) == x && forall s :: s != m ==> userTri(s) == old(userTri)(s)
      ensures ok ==> userSel == if x == YES then Some(m) else old(userSel)
      ensures ok && x == YES ==> g.cs in hasUser
    {
      assert m != g.cs;
      hide Proper, Settled, RightMember, Mode, Chosen, Vis, Visible, Guarded;
      ok := tri(m) == x || WithinRange(m, x);
      if !ok {
        return;
      }
      hasUser := hasUser + {m};
      if x == YES {
        userSel := Some(m);
        hasUser := hasUser + {g.cs};
        FlagVisible();
      }
      SetUserTri(m, x);
      if tri(m) != x {
        ClearAllValid();
      }
    }

    method SetUserTri(s: Symbol, x: Tri)
      modifies this`userTri
      ensures userTri(s) == x && forall t :: t != s ==> userTri(t) == old(userTri)(t)
    {
      var was := userTri;
      userTri := t => if t == s then x else was(t);
    }

    /** Setting a member to y decides about all visible members. */
    method FlagVisible()
      modifies this`hasUser
      ensures hasUser == old(hasUser) + set m | m in g.members && visible(m) != NO
    {
      for i := 0 to |g.members|
        invariant hasUser == old(hasUser) + set m | m in g.members[..i] && visible(m) != NO
      {
        assert g.members[..i + 1] == g.members[..i] + [g.members[i]];
        if visible(g.members[i]) != NO {
          hasUser := hasUser + {g.members[i]};
        }
      }
      assert g.members[..|g.members|] == g.members;
    }

    /** Set a member to y and look again: if that is accepted, all others are n, and the member is y,
        unless the choice symbol itself is n because of what it depends on and what the user said about
        it. */
    method SelectMember(m: Symbol) returns (ok: bool)
      requires Coherent({}) && m in g.members && m in valid
      modifies this
      ensures Fixed() && (ok <==> old(visible(m)) == YES)
      ensures ok ==> Coherent({}) && forall n :: n in g.members && n != m ==> tri(n) == NO
      ensures ok ==> tri(m) == Mode(g, outside, true, old(userTri)(g.cs))
      ensures !ok ==> tri == old(tri) && userSel == old(userSel)
    {
      ghost var seen := visible(m);
      SeenMember(m);
      ok := SetMember(m, YES);
      if ok {
        Recalculate();
        SelectedMember(m);
      }
    }

    lemma SeenMember(m: Symbol)
      requires Coherent({}) && m in g.members && m in valid
      ensures visible(m) != MOD && m != g.cs
      ensures visible(m) == YES ==> Vis(g, outside, m, YES) == YES
      ensures tri(m) == YES ==> visible(m) == YES
    {
      assert RightMember(m);
      HiddenWithoutChoice(g, outside, m);
    }

    lemma SelectedMember(m: Symbol)
      requires Coherent({}) && (forall n :: n in g.members ==> n in valid) && m in g.members
      requires userSel == Some(m) && Vis(g, outside, m, YES) == YES
      ensures forall n :: n in g.members && n != m ==> tri(n) == NO
      ensures tri(m) == mode
    {
      forall n | n in g.members ensures RightMember(n) {
      }
      HiddenWithoutChoice(g, outside, m);
    }
  }
}
