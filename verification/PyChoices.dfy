/** Choices in support/scripts/kconfiglib.py: in y mode one item has the value y and the others n, and setting an
    item to y makes it the one. */
module PyChoices {
  import opened Tristates
  import opened Exprs
  import opened PyExprs
  import opened PyConfiguration
  import opened PyModels
  import opened PyDependents
  import opened PyCaches

  predicate Shown(m: Model, val: PyValues, s: Symbol) {
    SymVisibility(m, val, s) != NO
  }

  // ---------- who is selected ----------

  /** The first default whose condition is not n, or else the first item. */
  lemma {:induction false} ChosenDefaultIsFirst(m: Model, val: PyValues, ds: seq<ChoiceDefault>, first: Symbol)
    returns (k: nat)
    ensures k <= |ds| && forall i :: 0 <= i < k ==> PyEval(val, ds[i].cond) == NO
    ensures k < |ds| ==> PyEval(val, ds[k].cond) != NO && ChosenDefault(m, val, ds, first) == ds[k].sym
    ensures k == |ds| ==> ChosenDefault(m, val, ds, first) == first
  {
    k := 0;
    if ds != [] && PyEval(val, ds[0].cond) == NO {
      var j := ChosenDefaultIsFirst(m, val, ds[1..], first);
      k := j + 1;
    }
  }

  /** The first item that can be seen. */
  lemma {:induction false} FirstVisibleIsFirst(m: Model, val: PyValues, ss: seq<Symbol>) returns (k: nat)
    ensures k <= |ss| && forall i :: 0 <= i < k ==> !Shown(m, val, ss[i])
    ensures FirstVisible(m, val, ss) == if k < |ss| then Some(ss[k]) else None
    ensures k < |ss| ==> Shown(m, val, ss[k])
  {
    k := 0;
    if ss != [] && !Shown(m, val, ss[0]) {
      var j := FirstVisibleIsFirst(m, val, ss[1..]);
      k := j + 1;
    }
  }

  /** Somebody can be selected: whom the user selected, or, unless the choice is optional, any item. */
  ghost predicate CanSelect(m: Model, u: Users, val: PyValues, c: nat) {
    || (c in u.selection && Shown(m, val, u.selection[c]))
    || (!m.choice(c).optional && exists s :: s in m.choice(c).members && Shown(m, val, s))
  }

  lemma ItemVisibilityIsDefinite(m: Model, rank: Symbol -> nat, val: PyValues, s: Symbol, c: nat)
    requires Proper(m, rank) && s in m.choice(c).members
    ensures SymVisibility(m, val, s) != MOD && (Shown(m, val, s) ==> ChoiceVisibility(m, val, c) != NO)
  {
  }

  /** In y mode a visible item is selected, if and only if one can be; the user's selection comes first. */
  lemma SelectionIsShown(m: Model, rank: Symbol -> nat, u: Users, val: PyValues, c: nat)
    requires Proper(m, rank) && ProperUsers(m, u) && Mode(m, u, val, c) == YES
    ensures var x := Selection(m, u, val, c);
            && (x.Some? <==> CanSelect(m, u, val, c))
            && (x.Some? ==> x.value in m.choice(c).members && Shown(m, val, x.value))
    ensures c in u.selection && Shown(m, val, u.selection[c]) ==> Selection(m, u, val, c) == Some(u.selection[c])
  {
    var members := m.choice(c).members;
    if c in u.selection {
      ItemVisibilityIsDefinite(m, rank, val, u.selection[c], c);
    }
    if !(c in u.selection && Shown(m, val, u.selection[c])) && !m.choice(c).optional {
      DefaultSelectionIsShown(m, rank, val, c);
    }
  }

  lemma DefaultSelectionIsShown(m: Model, rank: Symbol -> nat, val: PyValues, c: nat)
    requires Proper(m, rank)
    ensures var x := DefaultSelection(m, val, c);
            && (x.Some? <==> exists s :: s in m.choice(c).members && Shown(m, val, s))
            && (x.Some? ==> x.value in m.choice(c).members && Shown(m, val, x.value))
  {
    hide SymVisibility, FirstVisible, ChosenDefault;
    var members, ds := m.choice(c).members, m.choice(c).defaults;
    if members != [] {
      var k := ChosenDefaultIsFirst(m, val, ds, members[0]);
      var j := FirstVisibleIsFirst(m, val, members);
      assert k < |ds| ==> ds[k] in ds;
      assert j < |members| ==> members[j] in members;
    }
  }

  /** The default in effect is the first whose condition is not n. */
  predicate InEffect(val: PyValues, ds: seq<ChoiceDefault>, k: nat) {
    k < |ds| && PyEval(val, ds[k].cond) != NO && forall i :: 0 <= i < k ==> PyEval(val, ds[i].cond) == NO
  }

  /** The user has selected nothing that can be seen. */
  ghost predicate LeftToDefaults(m: Model, u: Users, val: PyValues, c: nat) {
    Mode(m, u, val, c) == YES && !m.choice(c).optional && !(c in u.selection && Shown(m, val, u.selection[c]))
  }

  lemma DefaultsDecide(m: Model, rank: Symbol -> nat, u: Users, val: PyValues, c: nat)
    requires Proper(m, rank) && ProperUsers(m, u) && LeftToDefaults(m, u, val, c)
    ensures Selection(m, u, val, c) == DefaultSelection(m, val, c)
  {
    if c in u.selection {
      ItemVisibilityIsDefinite(m, rank, val, u.selection[c], c);
    }
  }

  /** Then the default in effect is selected if it can be seen ... */
  lemma DefaultIsSelected(m: Model, rank: Symbol -> nat, u: Users, val: PyValues, c: nat, k: nat)
    requires Proper(m, rank) && ProperUsers(m, u) && LeftToDefaults(m, u, val, c)
    requires InEffect(val, m.choice(c).defaults, k) && Shown(m, val, m.choice(c).defaults[k].sym)
    ensures Selection(m, u, val, c) == Some(m.choice(c).defaults[k].sym)
  {
    var items, ds := m.choice(c).members, m.choice(c).defaults;
    DefaultsDecide(m, rank, u, val, c);
    assert ds[k] in ds && items != [];
    hide Proper, ProperUsers, Selection, LeftToDefaults, SymVisibility, ChosenDefault;
    var i := ChosenDefaultIsFirst(m, val, ds, items[0]);
    assert i == k;
  }

  /** ... and else the first item that can. */
  lemma FirstItemIsSelected(m: Model, rank: Symbol -> nat, u: Users, val: PyValues, c: nat, j: nat)
    requires Proper(m, rank) && ProperUsers(m, u) && LeftToDefaults(m, u, val, c)
    requires forall k :: 0 <= k < |m.choice(c).defaults| && InEffect(val, m.choice(c).defaults, k) ==>
               !Shown(m, val, m.choice(c).defaults[k].sym)
    requires j < |m.choice(c).members| && Shown(m, val, m.choice(c).members[j])
    requires forall i :: 0 <= i < j ==> !Shown(m, val, m.choice(c).members[i])
    ensures Selection(m, u, val, c) == Some(m.choice(c).members[j])
  {
    var items, ds := m.choice(c).members, m.choice(c).defaults;
    DefaultsDecide(m, rank, u, val, c);
    hide Proper, ProperUsers, Selection, LeftToDefaults, SymVisibility, ChosenDefault, FirstVisible;
    var i := ChosenDefaultIsFirst(m, val, ds, items[0]);
    assert i < |ds| ==> InEffect(val, ds, i);
    var f := FirstVisibleIsFirst(m, val, items);
    assert f == j;
  }

  // ---------- what the items are ----------

  /** The value of an item, by the mode of its choice. */
  lemma ItemByMode(m: Model, rank: Symbol -> nat, u: Users, val: PyValues, s: Symbol, c: nat)
    requires Proper(m, rank) && Means(m, u, val) && s in m.choice(c).members
    ensures val(s) == "y" <==>
              Shown(m, val, s) &&
              (|| (Mode(m, u, val, c) == YES && Selection(m, u, val, c) == Some(s))
               || (Mode(m, u, val, c) == MOD && s.Type().Boolean? && s in u.val && u.val[s] in ["m", "y"]))
    ensures val(s) == "m" <==>
              Shown(m, val, s) && Mode(m, u, val, c) == MOD && !s.Type().Boolean? &&
              s in u.val && u.val[s] in ["m", "y"]
    ensures val(s) in ["n", "m", "y"]
  {
    assert val(s) == Fresh(m, u, val, s);
  }

  lemma SelectedIsYes(m: Model, rank: Symbol -> nat, u: Users, val: PyValues, s: Symbol, c: nat)
    requires Proper(m, rank) && ProperUsers(m, u) && Means(m, u, val) && Mode(m, u, val, c) == YES
    requires s in m.choice(c).members
    ensures val(s) == if Selection(m, u, val, c) == Some(s) then "y" else "n"
  {
    hide Proper, Means, Mode, Selection, CanSelect;
    SelectionIsShown(m, rank, u, val, c);
    ItemByMode(m, rank, u, val, s, c);
  }

  /** Never more than one item of a choice in y mode is y, none is m, and one is y if and only if one can be
      selected. */
  lemma OneItemIsYes(m: Model, rank: Symbol -> nat, u: Users, val: PyValues, c: nat)
    requires Proper(m, rank) && ProperUsers(m, u) && Means(m, u, val) && Mode(m, u, val, c) == YES
    ensures forall s, t :: s in m.choice(c).members && t in m.choice(c).members && val(s) == "y" && val(t) == "y" ==>
              s == t
    ensures forall s :: s in m.choice(c).members ==> val(s) == "y" || val(s) == "n"
    ensures (exists s :: s in m.choice(c).members && val(s) == "y") <==> CanSelect(m, u, val, c)
  {
    hide Proper, Means, Mode, Selection, CanSelect;
    SelectionIsShown(m, rank, u, val, c);
    forall s | s in m.choice(c).members
      ensures val(s) == if Selection(m, u, val, c) == Some(s) then "y" else "n"
    {
      SelectedIsYes(m, rank, u, val, s, c);
    }
  }

  /** A choice that is not optional has exactly one item that is y if an item can be seen. */
  lemma ExactlyOneItemIsYes(m: Model, rank: Symbol -> nat, u: Users, val: PyValues, c: nat, s: Symbol)
    requires Proper(m, rank) && ProperUsers(m, u) && Means(m, u, val) && Mode(m, u, val, c) == YES
    requires !m.choice(c).optional && s in m.choice(c).members && Shown(m, val, s)
    ensures exists t :: t in m.choice(c).members && val(t) == "y"
                        && forall r :: r in m.choice(c).members && r != t ==> val(r) == "n"
  {
    OneItemIsYes(m, rank, u, val, c);
    assert CanSelect(m, u, val, c);
    var t :| t in m.choice(c).members && val(t) == "y";
  }

  // ---------- setting an item ----------

  /** What ranks below s does not see the change. */
  lemma {:induction false} LowerKept(m: Model, rank: Symbol -> nat, u: Users, u': Users, val: PyValues, val': PyValues,
                                     s: Symbol, t: Symbol)
    requires Proper(m, rank) && ProperUsers(m, u) && Means(m, u, val) && Means(m, u', val')
    requires ChangedAt(m, u, u', s) && s in m.syms && t in m.syms && rank(t) < rank(s)
    ensures val(t) == val'(t)
    decreases rank(t)
  {
    forall r | r in Inputs(m, t) ensures val(r) == val'(r) {
      InputsRankLower(m, rank, t, r);
      LowerKept(m, rank, u, u', val, val', s, r);
    }
    OtherChoice(m, rank, s, t);
    FreshAgrees(m, rank, u, u', val, val', t);
  }

  lemma OtherChoice(m: Model, rank: Symbol -> nat, s: Symbol, t: Symbol)
    requires Proper(m, rank) && s in m.syms && t in m.syms && rank(t) < rank(s)
    ensures m.sym(t).choice.Some? ==> m.sym(t).choice != m.sym(s).choice
  {
    assert m.sym(t).choice.Some? ==> t in m.choice(m.sym(t).choice.value).members;
    assert m.sym(s).choice.Some? ==> s in m.choice(m.sym(s).choice.value).members;
  }

  lemma VisibilityKept(m: Model, rank: Symbol -> nat, u: Users, u': Users, val: PyValues, val': PyValues, s: Symbol)
    requires Proper(m, rank) && ProperUsers(m, u) && Means(m, u, val) && Means(m, u', val')
    requires ChangedAt(m, u, u', s) && s in m.syms
    ensures SymVisibility(m, val, s) == SymVisibility(m, val', s)
    ensures m.sym(s).choice.Some? ==>
              ChoiceVisibility(m, val, m.sym(s).choice.value) == ChoiceVisibility(m, val', m.sym(s).choice.value)
  {
    forall r | r in Mentioned(m, s) ensures val(r) == val'(r) {
      InputsRankLower(m, rank, s, r);
      LowerKept(m, rank, u, u', val, val', s, r);
    }
    SymVisibilityAgrees(m, val, val', s);
  }

  /** A choice that is not optional and that the user has not touched is y where it can be seen: without modules m
      counts as y. */
  lemma ModeByDefault(m: Model, u: Users, val: PyValues, c: nat)
    requires c !in u.mode && !m.choice(c).optional && ChoiceVisibility(m, val, c) != NO
    ensures Mode(m, u, val, c) == YES
    ensures ChoiceVisibility(m, val, c) == YES
  {
  }

  /** An optional one is n until the user says otherwise, and none is more than its visibility. */
  lemma ModeIsBounded(m: Model, u: Users, val: PyValues, c: nat)
    ensures m.choice(c).optional && c !in u.mode ==> Mode(m, u, val, c) == NO
    ensures ChoiceVisibility(m, val, c) == NO ==> Mode(m, u, val, c) == NO
    ensures c in u.mode && ChoiceVisibility(m, val, c) == YES ==> Mode(m, u, val, c) == Promote(u.mode[c])
  {
  }

  /** After set_user_value("y") on an item that can be seen, it is y and every other item n; on one that cannot be
      seen, it stays n. */
  lemma SettingSelects(m: Model, rank: Symbol -> nat, u: Users, val: PyValues, val': PyValues, s: Symbol, c: nat)
    requires Proper(m, rank) && ProperUsers(m, u) && s in m.choice(c).members && m.sym(s).defined
    requires Means(m, u, val) && Means(m, WithUserValue(m, u, s, "y"), val')
    ensures val'(s) == "y" <==> Shown(m, val, s)
    ensures Shown(m, val, s) ==> forall t :: t in m.choice(c).members && t != s ==> val'(t) == "n"
  {
    var u' := WithUserValue(m, u, s, "y");
    UserChangesAreProper(m, rank, u, s, "y");
    VisibilityKept(m, rank, u, u', val, val', s);
    ItemVisibilityIsDefinite(m, rank, val', s, c);
    ItemByMode(m, rank, u', val', s, c);
    if Shown(m, val, s) {
      assert Mode(m, u', val', c) == YES;
      SelectionIsShown(m, rank, u', val', c);
      OneItemIsYes(m, rank, u', val', c);
    }
  }

  lemma SettingToNoKeepsChoice(m: Model, u: Users, val: PyValues, s: Symbol, c: nat)
    ensures var u' := WithUserValue(m, u, s, "n");
            Mode(m, u', val, c) == Mode(m, u, val, c) && Selection(m, u', val, c) == Selection(m, u, val, c)
  {
    hide Assignable, ChoiceVisibility, SymVisibility, DefaultSelection;
  }

  /** Setting an item of a choice in y mode to n changes no item, not even that one. */
  lemma SettingItemToNo(m: Model, rank: Symbol -> nat, u: Users, val: PyValues, val': PyValues, s: Symbol, c: nat)
    requires Proper(m, rank) && ProperUsers(m, u) && s in m.choice(c).members && Mode(m, u, val, c) == YES
    requires Means(m, u, val) && Means(m, WithUserValue(m, u, s, "n"), val')
    ensures forall t :: t in m.choice(c).members ==> val'(t) == val(t)
  {
    assert m.sym(s).choice == Some(c) && s in m.syms;
    hide Proper, ProperUsers, Means, Mode, Selection, WithUserValue, Inputs;
    var u' := WithUserValue(m, u, s, "n");
    UserChangesAreProper(m, rank, u, s, "n");
    SettingToNoKeepsChoice(m, u, val', s, c);
    forall r | r in Inputs(m, s) ensures val(r) == val'(r) {
      InputsRankLower(m, rank, s, r);
      LowerKept(m, rank, u, u', val, val', s, r);
    }
    SelectionAgrees(m, rank, u, u, val, val', s, c);
    forall t | t in m.choice(c).members ensures val'(t) == val(t) {
      SelectedIsYes(m, rank, u, val, t, c);
      SelectedIsYes(m, rank, u', val', t, c);
    }
  }

  // ---------- setting other symbols ----------

  /** What set_user_value takes for a bool, tristate or string symbol. */
  lemma AssignableExactly(m: Model, s: Symbol, v: string)
    ensures s.IsLogical() ==>
              (Assignable(m, s, v) <==> m.sym(s).defined && (v in ["y", "n"] || (v == "m" && s.Type().Tristate?)))
    ensures s.Type().String? ==> (Assignable(m, s, v) <==> m.sym(s).defined)
    ensures s.Type().Unknown? ==> !Assignable(m, s, v)
    ensures !Assignable(m, s, v) ==> forall u :: WithUserValue(m, u, s, v) == u
  {
  }

  /** A bool, tristate or string symbol outside choices that can be seen has the value it is set to, with m as y; a
      selected one is held at y. One that cannot be seen keeps its value. */
  lemma SettingTakes(m: Model, rank: Symbol -> nat, u: Users, val: PyValues, val': PyValues, s: Symbol, v: string)
    requires Proper(m, rank) && ProperUsers(m, u) && s in m.syms && m.sym(s).choice == None && Assignable(m, s, v)
    requires Means(m, u, val) && Means(m, WithUserValue(m, u, s, v), val')
    ensures Shown(m, val, s) && s.IsLogical() && PyEval(val, Some(m.sym(s).props.revDep)) == NO ==>
              val'(s) == if v == "n" then "n" else "y"
    ensures s.IsLogical() && PyEval(val, Some(m.sym(s).props.revDep)) != NO ==> val'(s) == "y"
    ensures Shown(m, val, s) && s.Type().String? ==> val'(s) == v
    ensures !Shown(m, val, s) && (s.IsLogical() || s.Type().String?) ==> val'(s) == val(s)
  {
    var u' := WithUserValue(m, u, s, v);
    UserChangesAreProper(m, rank, u, s, v);
    VisibilityKept(m, rank, u, u', val, val', s);
    forall r | r in Mentioned(m, s) ensures val(r) == val'(r) {
      InputsRankLower(m, rank, s, r);
      LowerKept(m, rank, u, u', val, val', s, r);
    }
    PlainValueAgrees(m, Find(u.val, s), val, val', s);
    PlainValueAgrees(m, Find(u'.val, s), val, val', s);
    assert val(s) == Fresh(m, u, val, s) && val'(s) == Fresh(m, u', val', s);
    PyEvalAgrees(val, val', Some(m.sym(s).props.revDep));
  }

  // ---------- unsetting ----------

  lemma RemovedEntry<K, V>(m: map<K, V>, k: K, v: V)
    ensures m[k := v] - {k} == m - {k} && (m - {k}) - {k} == m - {k}
  {
  }

  /** unset_user_value forgets what any set_user_value on the symbol has done ... */
  lemma UnsettingForgetsSetting(m: Model, u: Users, s: Symbol, v: string)
    ensures WithoutUserValue(m, WithUserValue(m, u, s, v), s) == WithoutUserValue(m, u, s)
  {
    hide Assignable;
    RemovedEntry(u.val, s, v);
    if m.sym(s).choice.Some? {
      var c := m.sym(s).choice.value;
      RemovedEntry(u.selection, c, s);
      RemovedEntry(u.mode, c, YES);
      RemovedEntry(u.mode, c, MOD);
    }
  }

  /** ... but it is as if there had never been any exactly if there was none before, and nothing was said about the
      choice of the symbol either: what the user said about other items of the choice is forgotten as well. */
  lemma UnsettingRestoresExactly(m: Model, u: Users, s: Symbol, v: string)
    ensures WithoutUserValue(m, WithUserValue(m, u, s, v), s) == u
       <==> s !in u.val && (m.sym(s).choice.Some? ==>
              m.sym(s).choice.value !in u.selection && m.sym(s).choice.value !in u.mode)
  {
    UnsettingForgetsSetting(m, u, s, v);
    var u' := WithoutUserValue(m, u, s);
    if s !in u.val && (m.sym(s).choice.Some? ==>
         m.sym(s).choice.value !in u.selection && m.sym(s).choice.value !in u.mode) {
      assert u'.val == u.val && u'.selection == u.selection && u'.mode == u.mode;
    }
  }

  /** Setting an item to m puts its choice into m mode, which without modules is y mode, and forgets the selection. */
  lemma SettingItemToMod(m: Model, u: Users, s: Symbol, c: nat)
    requires m.sym(s).choice == Some(c) && s.Type().Tristate? && m.sym(s).defined
    ensures var u' := WithUserValue(m, u, s, "m");
            c !in u'.selection && Find(u'.mode, c) == Some(MOD) && u'.val == u.val[s := "m"]
  {
  }
}
