/** The caches of support/scripts/kconfiglib.py: values and visibilities of symbols, visibilities and
    selections of choices, filled on demand and dropped selectively when the user changes something. */
module PyCaches {
  import opened Tristates
  import opened Exprs
  import opened Configuration
  import opened PyExprs
  import opened PyConfiguration
  import opened PyModels
  import opened PyDependents

  /** Mentioned where the value of a symbol, its visibility, the visibility of a choice or its
      selection has to be known to follow from the rest of the configuration. */
  ghost predicate Valued(s: Symbol) {
    true
  }

  ghost predicate Seen(s: Symbol) {
    true
  }

  ghost predicate ChoiceSeen(c: nat) {
    true
  }

  ghost predicate Chosen(c: nat) {
    true
  }

  /** What a user may assign to s: nothing to a special or an undefined symbol, and only what is a
      value of its type. */
  predicate Assignable(m: Model, s: Symbol, v: string) {
    && !s.IsFixed()
    && m.sym(s).defined
    && match s.Type()
       case Boolean => v == "y" || v == "n"
       case Tristate => v == "y" || v == "m" || v == "n"
       case String => true
       case Int => m.parse(v, 10).Some?
       case Hex => m.parse(v, 16).Some?
       case Unknown => false
  }

  /** What set_user_value makes of the user values. */
  function WithUserValue(m: Model, u: Users, s: Symbol, v: string): Users {
    if !Assignable(m, s, v) then u
    else
      var val := u.val[s := v];
      match m.sym(s).choice
      case None => u.(val := val)
      case Some(c) =>
        if v == "y" then Users(val, u.selection[c := s], u.mode[c := YES])
        else if v == "m" then Users(val, u.selection - {c}, u.mode[c := MOD])
        else u.(val := val)
  }

  /** What unset_user_value makes of them: the choice forgets its mode and selection, too. */
  function WithoutUserValue(m: Model, u: Users, s: Symbol): Users {
    match m.sym(s).choice
    case None => u.(val := u.val - {s})
    case Some(c) => Users(u.val - {s}, u.selection - {c}, u.mode - {c})
  }

  lemma UserChangesAreProper(m: Model, rank: Symbol -> nat, u: Users, s: Symbol, v: string)
    requires Proper(m, rank) && ProperUsers(m, u) && s in m.syms
    ensures ProperUsers(m, WithUserValue(m, u, s, v)) && ChangedAt(m, u, WithUserValue(m, u, s, v), s)
    ensures ProperUsers(m, WithoutUserValue(m, u, s)) && ChangedAt(m, u, WithoutUserValue(m, u, s), s)
  {
    assert m.sym(s).choice.Some? ==> s in m.choice(m.sym(s).choice.value).members;
    hide Proper;
    SettingChangesOnly(m, u, s, v);
    UnsettingChangesOnly(m, u, s);
  }

  lemma SettingChangesOnly(m: Model, u: Users, s: Symbol, v: string)
    requires ProperUsers(m, u) && (m.sym(s).choice.Some? ==> s in m.choice(m.sym(s).choice.value).members)
    ensures ProperUsers(m, WithUserValue(m, u, s, v)) && ChangedAt(m, u, WithUserValue(m, u, s, v), s)
  {
    hide Assignable;
  }

  lemma UnsettingChangesOnly(m: Model, u: Users, s: Symbol)
    requires ProperUsers(m, u)
    ensures ProperUsers(m, WithoutUserValue(m, u, s)) && ChangedAt(m, u, WithoutUserValue(m, u, s), s)
  {
  }

  /** Mentioned where the equations of closure and through matter. */
  ghost predicate Spreads(s: Symbol) {
    true
  }

  /** Mentioned where it matters that closure is closed, or what rank siblings have. */
  ghost predicate Closes(s: Symbol) {
    true
  }

  /** What the caches rely on: dep is complete, closure(s) holds the dependents of s, and choice items
      point to their choice. */
  ghost predicate Wired(m: Model, dep: DepSets, rank: Symbol -> nat, top: nat,
                        closure: Symbol -> set<Symbol>, through: Symbol -> set<Symbol>)
  {
    && dep.Keys == m.syms
    && (forall s, t {:trigger t in dep[s]} :: s in dep && t in dep[s] ==> t in dep && rank(s) < rank(t) <= top)
    && (forall s {:trigger Spreads(s)} :: s in dep ==>
          closure(s) == through(s) + Spread(through, Siblings(m, s)) && through(s) == Spread(closure, dep[s]))
    && (forall s {:trigger Closes(s)} :: s in dep ==> Closed(GraphOf(m), {s} + closure(s)))
    && (forall s {:trigger Closes(s)} ::
          s in dep ==> forall t :: t in Siblings(m, s) ==> t in dep && rank(t) == rank(s))
    && (forall c: nat, s :: s in m.choice(c).members ==> m.sym(s).choice == Some(c))
    && (forall s: Symbol {:trigger s.IsFixed()} :: s.IsFixed() ==> m.sym(s).choice == None)
  }

  lemma DependentsAreWired(m: Model, dep: DepSets, rank: Symbol -> nat, top: nat)
    requires Proper(m, rank) && Acyclic(GraphOf(m), rank) && Bounded(GraphOf(m), rank, top) &&
             DepsBuilt(GraphOf(m), dep)
    ensures Wired(m, dep, rank, top, DependentsOf(GraphOf(m), rank, top), ThroughOf(GraphOf(m), rank, top))
  {
    var g := GraphOf(m);
    var closure, through := DependentsOf(g, rank, top), ThroughOf(g, rank, top);
    forall s, t | s in dep && t in dep[s] ensures t in dep && rank(s) < rank(t) <= top {
      assert s in g.mentioned(t);
    }
    forall s | s in dep
      ensures closure(s) == through(s) + Spread(through, Siblings(m, s)) && through(s) == Spread(closure, dep[s])
      ensures Closed(g, {s} + closure(s))
      ensures forall t :: t in Siblings(m, s) ==> t in dep && rank(t) == rank(s)
    {
      DependentsAreSpread(g, rank, top, s);
      DependentsAreClosed(g, rank, top, s);
      assert g.siblings(s) == Siblings(m, s);
    }
  }

  /** Values, visibilities and selections that follow from the configuration and the user values. */
  ghost predicate Explains(m: Model, u: Users, val: PyValues, vis: Symbol -> Tri, choiceMeans: nat -> Tri,
                           selected: nat -> Option<Symbol>)
  {
    && (forall s {:trigger Valued(s)} :: s in m.syms ==> val(s) == Fresh(m, u, val, s))
    && (forall s {:trigger Seen(s)} :: vis(s) == SymVisibility(m, val, s))
    && (forall c {:trigger ChoiceSeen(c)} :: choiceMeans(c) == ChoiceVisibility(m, val, c))
    && (forall c {:trigger Chosen(c)} :: selected(c) == Selection(m, u, val, c))
  }

  lemma ExplainedIsMeant(m: Model, u: Users, val: PyValues, vis: Symbol -> Tri, choiceMeans: nat -> Tri,
                         selected: nat -> Option<Symbol>)
    requires Explains(m, u, val, vis, choiceMeans, selected)
    ensures Means(m, u, val)
  {
    forall s | s in m.syms ensures val(s) == Fresh(m, u, val, s) {
      assert Valued(s);
    }
  }

  /** A choice with items, none of which is about to be invalidated. What is cached for a choice
      without items is never dropped, so nothing is promised about it. */
  ghost predicate Live(m: Model, c: nat, stale: set<Symbol>) {
    m.choice(c).members != [] && forall s :: s in m.choice(c).members ==> s !in stale
  }

  /** When the user changes something about s, everything outside a closed set around s keeps its
      value, visibility and selection. */
  lemma OutsideUnchanged(m: Model, rank: Symbol -> nat, s: Symbol, stale: set<Symbol>,
                         u: Users, val: PyValues, vis: Symbol -> Tri, choiceMeans: nat -> Tri,
                         selected: nat -> Option<Symbol>,
                         u': Users, val': PyValues, vis': Symbol -> Tri, choiceMeans': nat -> Tri,
                         selected': nat -> Option<Symbol>)
    requires Proper(m, rank) && ProperUsers(m, u) && ChangedAt(m, u, u', s) && Closed(GraphOf(m), stale) && s in stale
    requires Explains(m, u, val, vis, choiceMeans, selected) && Explains(m, u', val', vis', choiceMeans', selected')
    ensures forall t :: t in m.syms && t !in stale ==> val(t) == val'(t) && vis(t) == vis'(t)
    ensures forall c: nat :: Live(m, c, stale) ==> choiceMeans(c) == choiceMeans'(c) && selected(c) == selected'(c)
  {
    ExplainedIsMeant(m, u, val, vis, choiceMeans, selected);
    ExplainedIsMeant(m, u', val', vis', choiceMeans', selected');
    forall t | t in m.syms && t !in stale ensures val(t) == val'(t) && vis(t) == vis'(t) {
      ChangeIsLocal(m, rank, u, u', val, val', s, stale, t);
      VisibilityUnchanged(m, rank, u, u', val, val', s, stale, t);
      assert Seen(t);
    }
    forall c: nat | Live(m, c, stale) ensures choiceMeans(c) == choiceMeans'(c) && selected(c) == selected'(c) {
      SelectionUnchanged(m, rank, u, u', val, val', s, stale, c, m.choice(c).members[0]);
      assert ChoiceSeen(c) && Chosen(c);
    }
  }

  class Config {
    const model: Model
    const dep: DepSets
    /** The order that shows the dependencies to be acyclic, and its highest value. */
    ghost const rank: Symbol -> nat
    ghost const top: nat
    /** The dependents of each symbol, with and without those of the other items of its choice. */
    ghost const closure: Symbol -> set<Symbol>
    ghost const through: Symbol -> set<Symbol>

    /** user_val and user_mode */
    var user: Users

    /** cached_val and cached_visibility of the symbols, cached_visibility and cached_selection of
        the choices, and cached_deps; a missing key is None. */
    var cachedVal: map<Symbol, string>
    var cachedVis: map<Symbol, Tri>
    var choiceVis: map<nat, Tri>
    var choiceSel: map<nat, Option<Symbol>>
    var cachedDeps: map<Symbol, set<Symbol>>

    /** What the configuration means: values, visibilities and selections without any cache. */
    ghost var val: PyValues
    ghost var vis: Symbol -> Tri
    ghost var choiceMeans: nat -> Tri
    ghost var selected: nat -> Option<Symbol>

    constructor (m: Model, dep: DepSets, ghost rank: Symbol -> nat, ghost top: nat)
      requires Proper(m, rank) && Bounded(GraphOf(m), rank, top) && DepsBuilt(GraphOf(m), dep)
      ensures model == m && this.rank == rank && user == Users(map[], map[], map[])
      ensures Consistent()
    {
      ProperIsAcyclic(m, rank);
      DependentsAreWired(m, dep, rank, top);
      model, this.dep, this.rank, this.top := m, dep, rank, top;
      closure, through := DependentsOf(GraphOf(m), rank, top), ThroughOf(GraphOf(m), rank, top);
      user := Users(map[], map[], map[]);
      cachedVal := map[SymYes := "y", SymMod := "m", SymNo := "n"];
      cachedVis, choiceVis, choiceSel, cachedDeps := map[], map[], map[], map[];
      new;
      Start();
    }

    /** Before anything is calculated only the constants have values. */
    ghost method Start()
      requires Proper(model, rank) && ProperUsers(model, user)
      requires cachedVal == map[SymYes := "y", SymMod := "m", SymNo := "n"]
      requires cachedVis == map[] && choiceVis == map[] && choiceSel == map[]
      modifies this`val, this`vis, this`choiceMeans, this`selected
      ensures Coherent()
    {
      Interpret();
      ConstantsMeanThemselves();
      forall s | s in cachedVal ensures s in model.syms && cachedVal[s] == val(s) {
        assert s.IsFixed();
      }
    }

    // ---------- coherence ----------

    ghost predicate Interpreted()
      reads this`val, this`vis, this`choiceMeans, this`selected, this`user
    {
      && Proper(model, rank) && ProperUsers(model, user)
      && Explains(model, user, val, vis, choiceMeans, selected)
    }

    ghost method Interpret()
      requires Proper(model, rank) && ProperUsers(model, user)
      modifies this`val, this`vis, this`choiceMeans, this`selected
      ensures Interpreted()
    {
      CachelessMeans(model, rank, user);
      val := CachelessValues(model, rank, user);
      var m, u, v := model, user, val;
      vis := s => SymVisibility(m, v, s);
      choiceMeans := (c: nat) => ChoiceVisibility(m, v, c);
      selected := (c: nat) => Selection(m, u, v, c);
    }

    lemma ConstantsMeanThemselves()
      requires Interpreted()
      ensures forall s: Symbol {:trigger s.IsFixed()} :: s.IsFixed() ==> val(s) == NameOf(s) && vis(s) == NO
    {
      forall s: Symbol | s.IsFixed() ensures val(s) == NameOf(s) && vis(s) == NO {
        assert Valued(s) && Seen(s);
        assert vis(s) == SymVisibility(model, val, s);
      }
    }

    lemma PlainVisibility(s: Symbol)
      requires Interpreted() && model.sym(s).choice == None
      ensures vis(s) == PyAnyPrompt(val, model.sym(s).props.prompts)
    {
      assert Seen(s);
      assert vis(s) == SymVisibility(model, val, s);
    }

    /** Apart from the symbols still to be invalidated and their choices, everything cached is what
        evaluating it without a cache would give. */
    ghost predicate CachesRight(stale: set<Symbol>)
      reads this`cachedVal, this`cachedVis, this`choiceVis, this`choiceSel, this`val, this`vis, this`choiceMeans,
            this`selected
    {
      && (forall s :: s in cachedVal ==> s in model.syms && (s !in stale || s.IsFixed() ==> cachedVal[s] == val(s)))
      && (forall s :: s in cachedVis ==> s in model.syms && (s !in stale || s.IsFixed() ==> cachedVis[s] == vis(s)))
      && (forall c :: c in choiceVis && Live(model, c, stale) ==> choiceVis[c] == choiceMeans(c))
      && (forall c :: c in choiceSel && Live(model, c, stale) ==> choiceSel[c] == selected(c))
    }

    ghost predicate Coherent()
      reads this
    {
      Interpreted() && CachesRight({})
    }

    // ---------- evaluation ----------

    /** Symbol.get_value */
    method GetValue(s: Symbol) returns (r: string)
      requires Coherent() && s in model.syms
      modifies this`cachedVal, this`cachedVis, this`choiceVis, this`choiceSel
      ensures Coherent() && r == val(s)
      decreases rank(s), 12
    {
      if s in cachedVal {
        return cachedVal[s];
      }
      r := ComputeValue(s);
      assert Valued(s);
      cachedVal := cachedVal[s := r];
    }

    method ComputeValue(s: Symbol) returns (r: string)
      requires Coherent() && s in model.syms
      modifies this`cachedVal, this`cachedVis, this`choiceVis, this`choiceSel
      ensures Coherent()
      ensures r == Fresh(model, user, val, s)
      decreases rank(s), 12, 0
    {
      match s.Type() {
        case Unknown => r := NameOf(s);
        case Boolean => r := LogicalValue(s);
        case Tristate => r := LogicalValue(s);
        case String => r := StringValue(s);
        case _ => r := NumberValue(s);
      }
    }

    /** The part of get_value for BOOL and TRISTATE. */
    method LogicalValue(s: Symbol) returns (r: string)
      requires Coherent() && s in model.syms && s.IsLogical()
      modifies this`cachedVal, this`cachedVis, this`choiceVis, this`choiceSel
      ensures Coherent()
      ensures r == match model.sym(s).choice
                   case None => Letter(PyLogicalValue(model.sym(s).props, Find(user.val, s), val))
                   case Some(c) => ItemValue(model, user, val, s, c)
      decreases rank(s), 11
    {
      match model.sym(s).choice {
        case None =>
          var t := PlainValue(s);
          r := Letter(t);
        case Some(c) => r := ChoiceItemValue(s, c);
      }
    }

    /** A bool or tristate symbol outside choices. */
    method PlainValue(s: Symbol) returns (r: Tri)
      requires Coherent() && s in model.syms && s.IsLogical() && model.sym(s).choice == None
      modifies this`cachedVal, this`cachedVis, this`choiceVis, this`choiceSel
      ensures Coherent()
      ensures r == PyLogicalValue(model.sym(s).props, Find(user.val, s), val)
      decreases rank(s), 10
    {
      var v := GetVisibility(s);
      PlainVisibility(s);
      r := NO;
      if v != NO && s in user.val {
        r := Min(Promote(TriOf(user.val[s])), Promote(v));
      } else {
        var d, cond := ActiveDefault(s);
        if d.Some? {
          var value := EvalExpr(Some(d.value.value), s);
          r := Min(value, Promote(cond));
        }
      }
      var rev := EvalExpr(Some(model.sym(s).props.revDep), s);
      if rev != NO {
        r := Max(Promote(r), Promote(rev));
      }
      if r == MOD && s.Type().Boolean? {
        r := YES;
      }
    }

    /** A choice item. */
    method ChoiceItemValue(s: Symbol, c: nat) returns (r: string)
      requires Coherent() && s in model.syms && model.sym(s).choice == Some(c)
      modifies this`cachedVal, this`cachedVis, this`choiceVis, this`choiceSel
      ensures Coherent()
      ensures r == ItemValue(model, user, val, s, c)
      decreases rank(s), 10
    {
      r := "n";
      var v := GetVisibility(s);
      assert Seen(s);
      if v != NO {
        var mode := GetMode(c, s);
        if mode == YES {
          var chosen := GetSelection(c, s);
          assert Chosen(c);
          r := if chosen == Some(s) then "y" else "n";
        } else if mode == MOD {
          if s in user.val && (user.val[s] == "m" || user.val[s] == "y") {
            r := "m";
          }
        }
      }
      if r == "m" && s.Type().Boolean? {
        r := "y";
      }
    }

    /** The part of get_value for STRING. */
    method StringValue(s: Symbol) returns (r: string)
      requires Coherent() && s in model.syms && s.Type().String?
      modifies this`cachedVal, this`cachedVis, this`choiceVis, this`choiceSel
      ensures Coherent()
      ensures r == PyStringValue(model.sym(s).props, Find(user.val, s), val)
      decreases rank(s), 11
    {
      var v := GetVisibility(s);
      PlainVisibility(s);
      r := "";
      if v != NO && s in user.val {
        r := user.val[s];
      } else {
        var d, _ := ActiveDefault(s);
        if d.Some? {
          r := StrVal(d.value.value, s);
        }
      }
    }

    /** The part of get_value for INT and HEX. */
    method NumberValue(s: Symbol) returns (r: string)
      requires Coherent() && s in model.syms && (s.Type().Int? || s.Type().Hex?)
      modifies this`cachedVal, this`cachedVis, this`choiceVis, this`choiceSel
      ensures Coherent()
      ensures r == PyModels.NumberValue(model, user, val, s)
      decreases rank(s), 11
    {
      var bounds := GetBounds(s);
      var v := GetVisibility(s);
      assert Seen(s);
      if v != NO && s in user.val && UserNumberOk(model, s.Type(), bounds, user.val[s]) {
        return user.val[s];
      }
      var found;
      found, r := NumberDefault(s, bounds);
      if !found && bounds.Some? && bounds.value.0 > 0 {
        r := model.show(bounds.value.0, s.Type());
      }
    }

    /** The first loop of that part: the bounds of the active range. */
    method GetBounds(s: Symbol) returns (bounds: Option<(int, int)>)
      requires Coherent() && s in model.syms
      modifies this`cachedVal, this`cachedVis, this`choiceVis, this`choiceSel
      ensures Coherent()
      ensures bounds == ActiveBounds(model, val, s)
      decreases rank(s), 4
    {
      var rs := model.sym(s).ranges;
      for i := 0 to |rs|
        invariant Coherent()
        invariant ActivePyRange(val, rs) == ActivePyRange(val, rs[i..])
        invariant PyRangeSymbols(rs[i..]) <= PyRangeSymbols(rs)
      {
        assert rs[i..][1..] == rs[i + 1..];
        var cond := EvalExpr(rs[i].cond, s);
        if cond != NO {
          var low := AtomVal(rs[i].low, s);
          var high := AtomVal(rs[i].high, s);
          var l, h := model.parse(low, Base(s.Type())), model.parse(high, Base(s.Type()));
          return Some((if l.Some? then l.value else 0, if h.Some? then h.value else 0));
        }
      }
      bounds := None;
    }

    /** The last loop of that part, over the defaults. */
    method NumberDefault(s: Symbol, bounds: Option<(int, int)>) returns (found: bool, r: string)
      requires Coherent() && s in model.syms
      modifies this`cachedVal, this`cachedVis, this`choiceVis, this`choiceSel
      ensures Coherent()
      ensures (found, r) == PyModels.NumberDefault(model, val, s.Type(), bounds, model.sym(s).props.defaults, "")
      decreases rank(s), 4
    {
      var ds := model.sym(s).props.defaults;
      found, r := false, "";
      for i := 0 to |ds|
        invariant Coherent() && !found
        invariant PyModels.NumberDefault(model, val, s.Type(), bounds, ds, "")
               == PyModels.NumberDefault(model, val, s.Type(), bounds, ds[i..], r)
        invariant PyDefaultSymbols(ds[i..]) <= PyDefaultSymbols(ds)
      {
        assert ds[i..][1..] == ds[i + 1..];
        var cond := EvalExpr(ds[i].cond, s);
        if cond != NO {
          r := StrVal(ds[i].value, s);
          var n := model.parse(r, Base(s.Type()));
          if n.Some? {
            if bounds.Some? {
              if n.value < bounds.value.0 {
                r := model.show(bounds.value.0, s.Type());
              } else if n.value > bounds.value.1 {
                r := model.show(bounds.value.1, s.Type());
              }
            }
            found := true;
            return;
          }
        }
      }
    }

    /** The loops over the defaults that stop at the first one that applies. */
    method ActiveDefault(s: Symbol) returns (d: Option<PyDefault>, cond: Tri)
      requires Coherent() && s in model.syms
      modifies this`cachedVal, this`cachedVis, this`choiceVis, this`choiceSel
      ensures Coherent()
      ensures d == PyActiveDefault(val, model.sym(s).props.defaults)
      ensures d.Some? ==> cond == PyEval(val, d.value.cond) && PySymbols(d.value.value) <= Mentioned(model, s)
      decreases rank(s), 4
    {
      var ds := model.sym(s).props.defaults;
      cond := NO;
      for i := 0 to |ds|
        invariant Coherent()
        invariant PyActiveDefault(val, ds) == PyActiveDefault(val, ds[i..])
        invariant PyDefaultSymbols(ds[i..]) <= PyDefaultSymbols(ds)
      {
        assert ds[i..][1..] == ds[i + 1..];
        cond := EvalExpr(ds[i].cond, s);
        if cond != NO {
          return Some(ds[i]), cond;
        }
      }
      d := None;
    }

    /** _get_visibility of a symbol */
    method GetVisibility(s: Symbol) returns (v: Tri)
      requires Coherent() && s in model.syms
      modifies this`cachedVal, this`cachedVis, this`choiceVis, this`choiceSel
      ensures Coherent() && v == vis(s)
      decreases rank(s), 5
    {
      if s in cachedVis {
        return cachedVis[s];
      }
      v := ComputeVisibility(s);
      assert Seen(s);
      cachedVis := cachedVis[s := v];
    }

    method ComputeVisibility(s: Symbol) returns (v: Tri)
      requires Coherent() && s in model.syms
      modifies this`cachedVal, this`cachedVis, this`choiceVis, this`choiceSel
      ensures Coherent()
      ensures v == SymVisibility(model, val, s)
      decreases rank(s), 5, 0
    {
      v := AnyPrompt(model.sym(s).props.prompts, s);
      if model.sym(s).choice.Some? {
        var cv := GetChoiceVisibility(model.sym(s).choice.value, s);
        assert ChoiceSeen(model.sym(s).choice.value);
        v := Min(Promote(v), Promote(cv));
      }
      if v == MOD && !s.Type().Tristate? {
        v := YES;
      }
    }

    /** _get_visibility of a choice; s is one of its items. */
    method GetChoiceVisibility(c: nat, ghost s: Symbol) returns (v: Tri)
      requires Coherent() && s in model.syms && model.sym(s).choice == Some(c)
      modifies this`cachedVal, this`cachedVis, this`choiceVis, this`choiceSel
      ensures Coherent() && v == choiceMeans(c)
      decreases rank(s), 4
    {
      assert s in model.choice(c).members;
      if c in choiceVis {
        return choiceVis[c];
      }
      v := ComputeChoiceVisibility(c, s);
      assert ChoiceSeen(c);
      choiceVis := choiceVis[c := v];
    }

    method ComputeChoiceVisibility(c: nat, ghost s: Symbol) returns (v: Tri)
      requires Coherent() && s in model.syms && model.sym(s).choice == Some(c)
      modifies this`cachedVal, this`cachedVis, this`choiceVis, this`choiceSel
      ensures Coherent()
      ensures v == ChoiceVisibility(model, val, c)
      decreases rank(s), 4, 0
    {
      v := AnyPrompt(model.choice(c).prompts, s);
      if v == MOD && !model.choice(c).ty.Tristate? {
        v := YES;
      }
    }

    /** The loop of _get_visibility: the maximum over the prompts. */
    method AnyPrompt(ps: seq<Option<PyExpr>>, ghost s: Symbol) returns (v: Tri)
      requires Coherent() && s in model.syms && PyPromptSymbols(ps) <= Mentioned(model, s)
      modifies this`cachedVal, this`cachedVis, this`choiceVis, this`choiceSel
      ensures Coherent()
      ensures v == PyAnyPrompt(val, ps) && v != MOD
      decreases rank(s), 3
    {
      v := NO;
      for i := 0 to |ps|
        invariant Coherent()
        invariant v == PyAnyPrompt(val, ps[..i]) && v != MOD
      {
        PyPromptsSplit(ps, i);
        var cond := EvalExpr(ps[i], s);
        assert ps[..i + 1][..i] == ps[..i];
        v := Max(Promote(v), cond);
      }
      assert ps[..|ps|] == ps;
    }

    /** Choice.get_mode */
    method GetMode(c: nat, ghost s: Symbol) returns (mode: Tri)
      requires Coherent() && s in model.syms && model.sym(s).choice == Some(c)
      modifies this`cachedVal, this`cachedVis, this`choiceVis, this`choiceSel
      ensures Coherent()
      ensures mode == Mode(model, user, val, c)
      decreases rank(s), 5
    {
      mode := if model.choice(c).optional then NO else MOD;
      if c in user.mode {
        mode := user.mode[c];
      }
      var v := GetChoiceVisibility(c, s);
      assert ChoiceSeen(c);
      mode := Min(Promote(mode), Promote(v));
      if mode == MOD && model.choice(c).ty.Boolean? {
        mode := YES;
      }
    }

    /** Choice.get_selection */
    method GetSelection(c: nat, ghost s: Symbol) returns (r: Option<Symbol>)
      requires Coherent() && s in model.syms && model.sym(s).choice == Some(c)
      modifies this`cachedVal, this`cachedVis, this`choiceVis, this`choiceSel
      ensures Coherent() && r == selected(c)
      decreases rank(s), 9
    {
      assert s in model.choice(c).members;
      if c in choiceSel {
        return choiceSel[c];
      }
      r := ComputeSelection(c, s);
      assert Chosen(c);
      choiceSel := choiceSel[c := r];
    }

    method ComputeSelection(c: nat, ghost s: Symbol) returns (r: Option<Symbol>)
      requires Coherent() && s in model.syms && model.sym(s).choice == Some(c)
      modifies this`cachedVal, this`cachedVis, this`choiceVis, this`choiceSel
      ensures Coherent()
      ensures r == Selection(model, user, val, c)
      decreases rank(s), 8
    {
      assert s in model.choice(c).members;
      var mode := GetMode(c, s);
      if mode != YES {
        return None;
      }
      if c in user.selection {
        var v := GetVisibility(user.selection[c]);
        assert Seen(user.selection[c]);
        if v == YES {
          return Some(user.selection[c]);
        }
      }
      if model.choice(c).optional {
        return None;
      }
      r := SelectionFromDefaults(c, s);
    }

    /** Choice.get_selection_from_defaults */
    method SelectionFromDefaults(c: nat, ghost s: Symbol) returns (r: Option<Symbol>)
      requires Coherent() && s in model.syms && model.sym(s).choice == Some(c)
      modifies this`cachedVal, this`cachedVis, this`choiceVis, this`choiceSel
      ensures Coherent()
      ensures r == DefaultSelection(model, val, c)
      decreases rank(s), 7
    {
      assert s in model.choice(c).members;
      var chosen := ChosenItem(c, s);
      var v := GetVisibility(chosen);
      assert Seen(chosen);
      if v != NO {
        return Some(chosen);
      }
      r := FirstVisibleItem(c, s);
    }

    /** Its first loop: the item of the first default that applies, else the first item. */
    method ChosenItem(c: nat, ghost s: Symbol) returns (r: Symbol)
      requires Coherent() && s in model.syms && model.sym(s).choice == Some(c) && s in model.choice(c).members
      modifies this`cachedVal, this`cachedVis, this`choiceVis, this`choiceSel
      ensures Coherent()
      ensures r == ChosenDefault(model, val, model.choice(c).defaults, model.choice(c).members[0])
      ensures r in model.choice(c).members
      decreases rank(s), 4
    {
      var ds := model.choice(c).defaults;
      r := model.choice(c).members[0];
      for i := 0 to |ds|
        invariant Coherent()
        invariant ChosenDefault(model, val, ds, r) == ChosenDefault(model, val, ds[i..], r)
        invariant ConditionSymbols(ds[i..]) <= ConditionSymbols(ds)
      {
        assert ds[i..][1..] == ds[i + 1..];
        var cond := EvalExpr(ds[i].cond, s);
        if cond != NO {
          assert ds[i] in ds;
          return ds[i].sym;
        }
      }
    }

    /** Its second loop: the first visible item. */
    method FirstVisibleItem(c: nat, ghost s: Symbol) returns (r: Option<Symbol>)
      requires Coherent() && s in model.syms && model.sym(s).choice == Some(c) && s in model.choice(c).members
      modifies this`cachedVal, this`cachedVis, this`choiceVis, this`choiceSel
      ensures Coherent()
      ensures r == FirstVisible(model, val, model.choice(c).members)
      decreases rank(s), 6
    {
      hide Mentioned, SymVisibility;
      var ss := model.choice(c).members;
      for i := 0 to |ss|
        invariant Coherent()
        invariant FirstVisible(model, val, ss) == FirstVisible(model, val, ss[i..])
      {
        assert ss[i..][1..] == ss[i + 1..];
        assert ss[i] in ss;
        var v := GetVisibility(ss[i]);
        assert Seen(ss[i]);
        if v != NO {
          return Some(ss[i]);
        }
      }
      r := None;
    }

    /** _eval_expr; there is no MODULES symbol */
    method EvalExpr(e: Option<PyExpr>, ghost s: Symbol) returns (t: Tri)
      requires Coherent() && s in model.syms && PySymbolsOpt(e) <= Mentioned(model, s)
      modifies this`cachedVal, this`cachedVis, this`choiceVis, this`choiceSel
      ensures Coherent()
      ensures t == PyEval(val, e)
      decreases rank(s), 2
    {
      t := YES;
      if e.Some? {
        t := EvalExpr2(e.value, s);
      }
      if t == MOD {
        t := YES;
      }
    }

    /** _eval_expr_2 on an expression that is not None */
    method EvalExpr2(e: PyExpr, ghost s: Symbol) returns (t: Tri)
      requires Coherent() && s in model.syms && PySymbols(e) <= Mentioned(model, s)
      modifies this`cachedVal, this`cachedVis, this`choiceVis, this`choiceSel
      ensures Coherent()
      ensures t == PyValue(val, e)
      decreases rank(s), 1, e, 0
    {
      match e
      case PSym(r) =>
        if !PyLogical(r) {
          return NO;
        }
        var str := GetValue(r);
        t := TriOf(str);
      case PStr(str) => t := TriOf(str);
      case PNary(op, ts) => t := EvalTerms(op, ts, s);
      case PNot(a) =>
        t := EvalExpr2(a, s);
        t := Negate(t);
      case PRel(equal, l, r) =>
        var lstr := AtomVal(l, s);
        var rstr := AtomVal(r, s);
        t := OfBool((lstr == rstr) == equal);
    }

    /** The loops over the operands of && and ||, which return at the first one that decides. */
    method EvalTerms(op: Op, ts: seq<PyExpr>, ghost s: Symbol) returns (t: Tri)
      requires Coherent() && s in model.syms && TermSymbols(ts) <= Mentioned(model, s)
      modifies this`cachedVal, this`cachedVis, this`choiceVis, this`choiceSel
      ensures Coherent()
      ensures t == PyTerms(val, op, ts)
      decreases rank(s), 1, ts, 1
    {
      var decided := if op.AndOp? then NO else YES;
      t := Negate(decided);
      for i := 0 to |ts|
        invariant Coherent() && t != decided
        invariant PyTerms(val, op, ts) == op.Apply(t, PyTerms(val, op, ts[i..]))
        invariant TermSymbols(ts[i..]) <= TermSymbols(ts)
      {
        assert ts[i..][1..] == ts[i + 1..];
        var ev := EvalExpr2(ts[i], s);
        if ev == decided {
          return decided;
        }
        if ev == MOD {
          t := MOD;
        }
      }
    }

    /** _str_val of an operand of = or != */
    method AtomVal(a: Atom, ghost s: Symbol) returns (r: string)
      requires Coherent() && s in model.syms && AtomSymbols(a) <= Mentioned(model, s)
      modifies this`cachedVal, this`cachedVis, this`choiceVis, this`choiceSel
      ensures Coherent()
      ensures r == PyExprs.StrVal(val, a)
      decreases rank(s), 0
    {
      if a.ASym? {
        r := GetValue(a.sym);
      } else {
        r := a.str;
      }
    }

    /** _str_val of a default */
    method StrVal(e: PyExpr, ghost s: Symbol) returns (r: string)
      requires Coherent() && s in model.syms && PySymbols(e) <= Mentioned(model, s)
      modifies this`cachedVal, this`cachedVis, this`choiceVis, this`choiceSel
      ensures Coherent()
      ensures r == if e.PSym? then val(e.sym) else if e.PStr? then e.str else ""
      decreases rank(s), 0
    {
      if e.PSym? {
        r := GetValue(e.sym);
      } else {
        r := if e.PStr? then e.str else "";
      }
    }

    // ---------- dependents ----------

    ghost predicate Ready() {
      Wired(model, dep, rank, top, closure, through)
    }

    ghost predicate DepsCached()
      reads this`cachedDeps
    {
      forall s :: s in cachedDeps ==> s in dep && cachedDeps[s] == closure(s)
    }

    /** Symbol._get_dependent */
    method GetDependent(s: Symbol) returns (r: set<Symbol>)
      requires Ready() && DepsCached() && s in dep
      modifies this`cachedDeps
      ensures DepsCached() && r == closure(s)
      decreases top - rank(s), 3
    {
      if s in cachedDeps {
        return cachedDeps[s];
      }
      assert Closes(s);
      r := AddDependent(s, {});
      r := AddSiblings(s, Siblings(model, s), r);
      assert Spreads(s);
      cachedDeps := cachedDeps[s := r];
    }

    /** The loop over the other items of the choice. */
    method AddSiblings(ghost s: Symbol, siblings: set<Symbol>, to: set<Symbol>) returns (r: set<Symbol>)
      requires Ready() && DepsCached() && forall t :: t in siblings ==> t in dep && rank(t) == rank(s)
      modifies this`cachedDeps
      ensures DepsCached() && r == to + Spread(through, siblings)
      decreases top - rank(s), 2
    {
      r := to;
      var todo := siblings;
      assert siblings - todo == {};
      while todo != {}
        invariant DepsCached() && todo <= siblings
        invariant r == to + Spread(through, siblings - todo)
        decreases todo
      {
        var x :| x in todo;
        r := AddDependent(x, r + {x});
        SpreadGrows(through, siblings - todo, x);
        assert siblings - (todo - {x}) == (siblings - todo) + {x};
        todo := todo - {x};
      }
      assert siblings - todo == siblings;
    }

    /** Symbol._add_dependent_ignore_siblings */
    method AddDependent(x: Symbol, to: set<Symbol>) returns (r: set<Symbol>)
      requires Ready() && DepsCached() && x in dep
      modifies this`cachedDeps
      ensures DepsCached() && r == to + through(x)
      decreases top - rank(x), 1
    {
      r := to;
      var todo := dep[x];
      ghost var done: set<Symbol> := {};
      while todo != {}
        invariant DepsCached() && done + todo == dep[x]
        invariant r == to + Spread(closure, done)
        decreases todo
      {
        var t :| t in todo;
        assert t in dep[x];
        var more := GetDependent(t);
        SpreadGrows(closure, done, t);
        r := r + {t} + more;
        todo := todo - {t};
        done := done + {t};
      }
      assert done == dep[x];
      assert Spreads(x);
    }

    // ---------- changes ----------

    /** The user values become u. Whatever is outside the closure of s stays right. */
    method ChangeUser(u: Users, ghost s: Symbol)
      requires Coherent() && ProperChange(s, u)
      modifies this`user, this`val, this`vis, this`choiceMeans, this`selected
      ensures user == u && Interpreted() && CachesRight({s} + closure(s))
    {
      ghost var u0, val0, vis0, choiceMeans0, selected0 := user, val, vis, choiceMeans, selected;
      ConstantsMeanThemselves();
      user := u;
      Interpret();
      ConstantsMeanThemselves();
      OutsideUnchanged(model, rank, s, {s} + closure(s), u0, val0, vis0, choiceMeans0, selected0,
                       user, val, vis, choiceMeans, selected);
      forall c: nat | Live(model, c, {s} + closure(s)) ensures Live(model, c, {}) {
      }
    }

    // ---------- invalidation ----------

    /** Nothing is cached for s or for its choice; what is cached for a constant is always right. */
    ghost predicate Forgotten(s: Symbol)
      reads this`cachedVal, this`cachedVis, this`choiceVis, this`choiceSel
    {
      && (!s.IsFixed() ==> s !in cachedVal && s !in cachedVis)
      && (model.sym(s).choice.Some? ==>
            model.sym(s).choice.value !in choiceVis && model.sym(s).choice.value !in choiceSel)
    }

    lemma ForgottenIsNotStale(s: Symbol, stale: set<Symbol>)
      requires CachesRight(stale) && Ready() && Forgotten(s)
      ensures CachesRight(stale - {s})
    {
      forall c: nat | (c in choiceVis || c in choiceSel) && Live(model, c, stale - {s}) ensures Live(model, c, stale) {
        assert s !in model.choice(c).members;
      }
    }

    /** Symbol._invalidate */
    method Invalidate(s: Symbol, ghost stale: set<Symbol>)
      requires CachesRight(stale) && Ready()
      modifies this`cachedVal, this`cachedVis, this`choiceVis, this`choiceSel
      ensures CachesRight(stale - {s}) && Forgotten(s)
    {
      if s.IsFixed() {
        ForgottenIsNotStale(s, stale);
        return;
      }
      if model.sym(s).choice.Some? {
        var c := model.sym(s).choice.value;
        choiceSel := choiceSel - {c};
        choiceVis := choiceVis - {c};
      }
      cachedVal := cachedVal - {s};
      cachedVis := cachedVis - {s};
      ForgottenIsNotStale(s, stale);
    }

    /** Symbol._invalidate_dependent */
    method InvalidateDependent(s: Symbol, ghost stale: set<Symbol>)
      requires CachesRight(stale) && Ready() && DepsCached() && s in dep && stale <= closure(s)
      modifies this`cachedVal, this`cachedVis, this`choiceVis, this`choiceSel, this`cachedDeps
      ensures CachesRight({}) && DepsCached()
    {
      var dependents := GetDependent(s);
      assert stale * dependents == stale;
      InvalidateAll(dependents, stale);
    }

    /** Its loop. */
    method InvalidateAll(dependents: set<Symbol>, ghost stale: set<Symbol>)
      requires CachesRight(stale) && Ready() && stale <= dependents
      modifies this`cachedVal, this`cachedVis, this`choiceVis, this`choiceSel
      ensures CachesRight({})
    {
      var todo := dependents;
      assert stale * todo == stale;
      while todo != {}
        invariant CachesRight(stale * todo)
        decreases todo
      {
        var t :| t in todo;
        Invalidate(t, stale * todo);
        assert stale * todo - {t} == stale * (todo - {t});
        todo := todo - {t};
      }
      assert stale * todo == {};
    }

    // ---------- set_user_value and unset_user_value ----------

    /** The checks and assignments of Symbol._set_user_value_no_invalidate. */
    method AssignUserValue(s: Symbol, v: string) returns (u: Users)
      requires model.sym(s).choice.Some? ==> s.IsLogical()
      ensures u == WithUserValue(model, user, s, v)
    {
      u := user;
      if s.IsFixed() || !model.sym(s).defined {
        return;
      }
      var ty := s.Type();
      if !(|| (ty.Boolean? && (v == "y" || v == "n"))
           || (ty.Tristate? && (v == "y" || v == "m" || v == "n"))
           || ty.String?
           || (ty.Int? && model.parse(v, 10).Some?)
           || (ty.Hex? && model.parse(v, 16).Some?)) {
        return;
      }
      u := u.(val := u.val[s := v]);
      if model.sym(s).choice.Some? && s.IsLogical() {
        var c := model.sym(s).choice.value;
        if v == "y" {
          u := u.(selection := u.selection[c := s], mode := u.mode[c := YES]);
        } else if v == "m" {
          u := u.(selection := u.selection - {c}, mode := u.mode[c := MOD]);
        }
      }
    }

    /** The assignments of _unset_user_value_no_recursive_invalidate and Choice._unset_user_value. */
    method DropUserValue(s: Symbol) returns (u: Users)
      ensures u == WithoutUserValue(model, user, s)
    {
      u := user.(val := user.val - {s});
      if model.sym(s).choice.Some? {
        var c := model.sym(s).choice.value;
        u := u.(selection := u.selection - {c}, mode := u.mode - {c});
      }
    }

    ghost predicate Consistent()
      reads this
    {
      Coherent() && Ready() && DepsCached()
    }

    /** What is said about s changes, and nothing else, and what depends on it is closed. */
    ghost predicate ProperChange(s: Symbol, u: Users)
      reads this`user
    {
      ProperUsers(model, u) && ChangedAt(model, user, u, s) && s in dep && Closed(GraphOf(model), {s} + closure(s))
    }

    lemma SettingIsProper(s: Symbol, v: string)
      requires Consistent() && s in model.syms
      ensures ProperChange(s, WithUserValue(model, user, s, v))
      ensures model.sym(s).choice.Some? ==> s.IsLogical()
    {
      UserChangesAreProper(model, rank, user, s, v);
      assert Closes(s);
    }

    lemma UnsettingIsProper(s: Symbol)
      requires Consistent() && s in model.syms
      ensures ProperChange(s, WithoutUserValue(model, user, s))
    {
      UserChangesAreProper(model, rank, user, s, "");
      assert Closes(s);
    }

    /** Symbol.set_user_value */
    method SetUserValue(s: Symbol, v: string)
      requires Consistent() && s in model.syms
      modifies this
      ensures Consistent()
      ensures user == WithUserValue(model, old(user), s, v)
    {
      hide Proper, Explains, Wired, ChangedAt, Closed, WithUserValue, CachesRight;
      SettingIsProper(s, v);
      var u := AssignUserValue(s, v);
      ChangeUser(u, s);
      InvalidateClosure(s);
    }

    /** The last two steps of set_user_value. */
    method InvalidateClosure(s: Symbol)
      requires Interpreted() && CachesRight({s} + closure(s)) && Ready() && DepsCached() && s in dep
      modifies this`cachedVal, this`cachedVis, this`choiceVis, this`choiceSel, this`cachedDeps
      ensures Consistent()
    {
      hide Proper, Explains, Wired, CachesRight;
      Invalidate(s, {s} + closure(s));
      InvalidateDependent(s, {s} + closure(s) - {s});
    }

    /** Symbol.unset_user_value */
    method UnsetUserValue(s: Symbol)
      requires Consistent() && s in model.syms
      modifies this
      ensures Consistent()
      ensures user == WithoutUserValue(model, old(user), s)
    {
      hide Proper, Explains, Wired, ChangedAt, Closed, WithoutUserValue, CachesRight;
      UnsettingIsProper(s);
      var u := DropUserValue(s);
      InvalidateFirst(s);
      ChangeUser(u, s);
      InvalidateRest(s);
    }

    /** The first step of unset_user_value. */
    method InvalidateFirst(s: Symbol)
      requires Coherent() && Ready()
      modifies this`cachedVal, this`cachedVis, this`choiceVis, this`choiceSel
      ensures Coherent() && Forgotten(s)
    {
      hide Proper, Explains, Wired;
      Invalidate(s, {});
      assert {} - {s} == {};
    }

    /** Its last step. */
    method InvalidateRest(s: Symbol)
      requires Interpreted() && CachesRight({s} + closure(s)) && Forgotten(s) && Ready() && DepsCached() && s in dep
      modifies this`cachedVal, this`cachedVis, this`choiceVis, this`choiceSel, this`cachedDeps
      ensures Consistent()
    {
      hide Proper, Explains, Wired, CachesRight;
      ForgottenIsNotStale(s, {s} + closure(s));
      InvalidateDependent(s, {s} + closure(s) - {s});
    }

    // ---------- runs ----------

    /** Any sequence of changes and questions: the answers are those of an evaluator that has no
        cache at all. */
    method Run(calls: seq<Call>) returns (answers: seq<Answer>)
      requires Consistent() && forall c :: c in calls ==> Callable(model, c)
      modifies this
      ensures Consistent()
      ensures answers == Play(model, rank, old(user), calls)
    {
      hide Proper, Explains, Wired, CachesRight, PlayOne;
      answers := [];
      assert calls[0..] == calls;
      for i := 0 to |calls|
        invariant Consistent()
        invariant answers + Play(model, rank, user, calls[i..]) == Play(model, rank, old(user), calls)
      {
        assert calls[i..][1..] == calls[i + 1..] && calls[i] in calls;
        var answer := Execute(calls[i]);
        answers := answers + [answer];
      }
      assert calls[|calls|..] == [];
    }

    method Execute(c: Call) returns (answer: Answer)
      requires Consistent() && Callable(model, c)
      modifies this
      ensures Consistent()
      ensures (answer, user) == PlayOne(model, rank, old(user), c)
    {
      hide Explains, Wired, CachesRight, WithUserValue, WithoutUserValue, SymVisibility, Selection;
      MeaningIsCacheless();
      match c
      case GetValue(s) =>
        var r := GetValue(s);
        answer := Value(r);
      case GetVisibility(s) =>
        var v := GetVisibility(s);
        answer := Visible(v);
      case GetSelection(ch) =>
        var r := GetSelection(ch, model.choice(ch).members[0]);
        answer := Selected(r);
      case SetUserValue(s, v) =>
        SetUserValue(s, v);
        answer := Done;
      case UnsetUserValue(s) =>
        UnsetUserValue(s);
        answer := Done;
    }

    /** What the caches are right about is the cache-free evaluation. */
    lemma MeaningIsCacheless()
      requires Interpreted()
      ensures var val' := CachelessValues(model, rank, user);
              && (forall s :: s in model.syms ==> val(s) == val'(s) && vis(s) == SymVisibility(model, val', s))
              && (forall c: nat :: model.choice(c).members != [] ==> selected(c) == Selection(model, user, val', c))
    {
      var val' := CachelessValues(model, rank, user);
      CachelessMeans(model, rank, user);
      ExplainedIsMeant(model, user, val, vis, choiceMeans, selected);
      forall s | s in model.syms ensures val(s) == val'(s) {
        MeaningIsUnique(model, rank, user, val, val', s);
      }
      AgreeingMeanings(val');
    }

    lemma AgreeingMeanings(val': PyValues)
      requires Interpreted() && forall s :: s in model.syms ==> val(s) == val'(s)
      ensures forall s :: s in model.syms ==> vis(s) == SymVisibility(model, val', s)
      ensures forall c: nat :: model.choice(c).members != [] ==> selected(c) == Selection(model, user, val', c)
    {
      forall s | s in model.syms
        ensures vis(s) == SymVisibility(model, val', s) && PyAgreeOn(val, val', Inputs(model, s))
      {
        forall r | r in Inputs(model, s) ensures r in model.syms {
          InputsRankLower(model, rank, s, r);
        }
        SymVisibilityAgrees(model, val, val', s);
        assert Seen(s);
      }
      forall c: nat | model.choice(c).members != [] ensures selected(c) == Selection(model, user, val', c) {
        SelectionAgrees(model, rank, user, user, val, val', model.choice(c).members[0], c);
        assert Chosen(c);
      }
    }
  }

  /** A call of the public interface. */
  datatype Call =
    | GetValue(sym: Symbol)
    | GetVisibility(sym: Symbol)
    | GetSelection(choice: nat)
    | SetUserValue(sym: Symbol, v: string)
    | UnsetUserValue(sym: Symbol)

  datatype Answer = Value(str: string) | Visible(tri: Tri) | Selected(sel: Option<Symbol>) | Done

  /** Symbols belong to the configuration, and choices have items. */
  predicate Callable(m: Model, c: Call) {
    if c.GetSelection? then m.choice(c.choice).members != [] else c.sym in m.syms
  }

  function PlayOne(m: Model, rank: Symbol -> nat, u: Users, c: Call): (Answer, Users)
    requires Proper(m, rank)
  {
    var val := CachelessValues(m, rank, u);
    match c
    case GetValue(s) => (Value(val(s)), u)
    case GetVisibility(s) => (Visible(SymVisibility(m, val, s)), u)
    case GetSelection(ch) => (Selected(Selection(m, u, val, ch)), u)
    case SetUserValue(s, v) => (Done, WithUserValue(m, u, s, v))
    case UnsetUserValue(s) => (Done, WithoutUserValue(m, u, s))
  }

  /** The answers of an evaluator without any cache. */
  function Play(m: Model, rank: Symbol -> nat, u: Users, calls: seq<Call>): seq<Answer>
    requires Proper(m, rank)
    decreases |calls|
  {
    if calls == [] then []
    else
      var (answer, u') := PlayOne(m, rank, u, calls[0]);
      [answer] + Play(m, rank, u', calls[1..])
  }
}
