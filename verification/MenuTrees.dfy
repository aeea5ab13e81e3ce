/** What menu_finalize in support/kconfig/menu.c makes of the tree of menu entries: conditions are
    inherited, dependent siblings move below the entry they depend on, and the children of entries
    without a prompt move up. */
module MenuTrees {
  import opened Tristates
  import opened Exprs
  import opened Simplify
  import opened Equality
  import opened Duplicates
  import opened Visibility
  import opened Submenus
  import Configuration

  /** `menu->prompt`: whether it has a text, and its condition. */
  datatype PromptInfo = PromptInfo(text: bool, visible: Option<Expr>)

  /** Any other property of the symbol that belongs to this entry; `select` is set for P_SELECT. */
  datatype PropInfo = PropInfo(visible: Option<Expr>, select: Option<Symbol>)

  /** The fields of `struct menu` that matter here. There are no choices. */
  datatype Entry = Entry(sym: Option<Symbol>, dep: Option<Expr>, prompt: Option<PromptInfo>, props: seq<PropInfo>)

  /** An entry with what is below it. */
  datatype Tree<M> = Tree(id: M, entry: Entry, kids: seq<Tree<M>>)

  /** What menu_finalize does besides: entries are entered, and conditions are added to rev_dep and
      dir_dep of symbols. */
  datatype Event<M> =
    | Enter(id: M)
    | AddRevDep(target: Symbol, selector: Option<Symbol>, dep: Option<Expr>)
    | AddDirDep(sym: Symbol, dep: Option<Expr>)

  predicate HasText(e: Entry) {
    e.prompt.Some? && e.prompt.value.text
  }

  function Count<M>(f: seq<Tree<M>>): nat {
    if f == [] then 0 else 1 + Count(f[0].kids) + Count(f[1..])
  }

  function Preorder<M>(f: seq<Tree<M>>): seq<M> {
    if f == [] then [] else [f[0].id] + Preorder(f[0].kids) + Preorder(f[1..])
  }

  lemma {:induction false} CountConcat<M>(f: seq<Tree<M>>, g: seq<Tree<M>>)
    ensures Count(f + g) == Count(f) + Count(g)
    ensures Preorder(f + g) == Preorder(f) + Preorder(g)
  {
    if f == [] {
      assert f + g == g;
    } else {
      assert (f + g)[1..] == f[1..] + g;
      CountConcat(f[1..], g);
    }
  }

  // ---------- conditions ----------

  /** The condition the entries below inherit. */
  function ParentDep(e: Entry): Option<Expr> {
    if e.prompt.Some? then e.prompt.value.visible else e.dep
  }

  function InheritProps(base: Option<Expr>, ps: seq<PropInfo>, tristate: bool): seq<PropInfo> {
    if ps == [] then []
    else [ps[0].(visible := InheritPrompt(base, ps[0].visible, tristate))] + InheritProps(base, ps[1..], tristate)
  }

  /** Only the conditions of symbols that are not tristate go through expr_trans_bool. */
  predicate KeepsMod(e: Entry) {
    e.sym.Some? ==> e.sym.value.Type().Tristate?
  }

  /** The body of the first loop of menu_finalize. */
  function InheritEntry(parentDep: Option<Expr>, e: Entry): Entry {
    var base := Inherit(parentDep, e.dep);
    Entry(e.sym, base,
          if e.prompt.Some?
          then Some(e.prompt.value.(visible := InheritPrompt(base, e.prompt.value.visible, KeepsMod(e))))
          else None,
          InheritProps(base, e.props, KeepsMod(e)))
  }

  function Selects<M>(e: Entry, ps: seq<PropInfo>): seq<Event<M>> {
    if ps == [] then []
    else
      (if ps[0].select.Some? then [AddRevDep(ps[0].select.value, e.sym, ps[0].visible)] else [])
      + Selects(e, ps[1..])
  }

  function InheritAll<M>(parentDep: Option<Expr>, f: seq<Tree<M>>): seq<Tree<M>> {
    if f == [] then [] else [f[0].(entry := InheritEntry(parentDep, f[0].entry))] + InheritAll(parentDep, f[1..])
  }

  function AllSelects<M>(f: seq<Tree<M>>): seq<Event<M>> {
    if f == [] then [] else Selects(f[0].entry, f[0].entry.props) + AllSelects(f[1..])
  }

  lemma {:induction false} InheritingKeepsShape<M>(parentDep: Option<Expr>, f: seq<Tree<M>>)
    ensures Count(InheritAll(parentDep, f)) == Count(f) && Preorder(InheritAll(parentDep, f)) == Preorder(f)
  {
    if f != [] {
      InheritingKeepsShape(parentDep, f[1..]);
    }
  }

  // ---------- restructuring ----------

  /** Does the entry m belong below the entry e that precedes it? */
  predicate Follows(e: Entry, m: Entry)
    requires e.sym.Some?
  {
    var dep := ParentDep(m);
    dep.Some? && ContainsSymbol(dep.value, e.sym.value)
    && (|| DependsSymbol(dep.value, e.sym.value)
        || ImpliedBy(dep, if e.prompt.Some? then e.prompt.value.visible else None))
  }

  /** menu_finalize on an entry and the siblings after it: the entry with what is then below it, the
      siblings that are left, and what happened. */
  function Finalize<M>(t: Tree<M>, rest: seq<Tree<M>>): (r: (Tree<M>, seq<Tree<M>>, seq<Event<M>>))
    ensures Count(r.1) <= Count(rest)
    decreases 1 + Count(t.kids) + Count(rest), 1
  {
    if t.kids != [] then
      var below := InheritAll(ParentDep(t.entry), t.kids);
      InheritingKeepsShape(ParentDep(t.entry), t.kids);
      var (kids, log) := FinalizeAll(below);
      (t.(kids := Hoist(kids)), rest, [Enter(t.id)] + AllSelects(below) + log)
    else if t.entry.sym.Some? then
      var (kids, rest', log) := Absorb(t.entry, rest);
      (t.(kids := Hoist(kids)), rest', [Enter(t.id)] + log + [AddDirDep(t.entry.sym.value, t.entry.dep)])
    else (t, rest, [Enter(t.id)])
  }

  /** The loop over the children. */
  function FinalizeAll<M>(f: seq<Tree<M>>): (r: (seq<Tree<M>>, seq<Event<M>>))
    decreases Count(f), 2
  {
    if f == [] then ([], [])
    else
      var (t, rest, log) := Finalize(f[0], f[1..]);
      var (more, log') := FinalizeAll(rest);
      ([t] + more, log + log')
  }

  /** The loop over the following siblings. */
  function Absorb<M>(e: Entry, f: seq<Tree<M>>): (r: (seq<Tree<M>>, seq<Tree<M>>, seq<Event<M>>))
    requires e.sym.Some?
    ensures Count(r.1) <= Count(f)
    decreases Count(f), 2
  {
    if f == [] || !Follows(e, f[0].entry) then ([], f, [])
    else
      var (t, rest, log) := Finalize(f[0], f[1..]);
      var (more, rest', log') := Absorb(e, rest);
      ([t] + more, rest', log + log')
  }

  /** The last loop: entries without a prompt text give up their children, which are looked at next. */
  function Hoist<M>(f: seq<Tree<M>>): seq<Tree<M>>
    decreases Count(f)
  {
    if f == [] then []
    else if f[0].kids != [] && !HasText(f[0].entry) then
      CountConcat(f[0].kids, f[1..]);
      [f[0].(kids := [])] + Hoist(f[0].kids + f[1..])
    else [f[0]] + Hoist(f[1..])
  }

  // ---------- nothing is lost or moved past anything ----------

  lemma {:induction false} HoistKeepsOrder<M>(f: seq<Tree<M>>)
    ensures Preorder(Hoist(f)) == Preorder(f) && Count(Hoist(f)) == Count(f)
    decreases Count(f)
  {
    if f != [] {
      if f[0].kids != [] && !HasText(f[0].entry) {
        CountConcat(f[0].kids, f[1..]);
        HoistKeepsOrder(f[0].kids + f[1..]);
        PreorderOf(f[0].(kids := []), Hoist(f[0].kids + f[1..]));
      } else {
        HoistKeepsOrder(f[1..]);
        PreorderOf(f[0], Hoist(f[1..]));
      }
    }
  }

  /** The entries entered, in order. */
  function Entered<M>(log: seq<Event<M>>): seq<M> {
    if log == [] then [] else (if log[0].Enter? then [log[0].id] else []) + Entered(log[1..])
  }

  lemma {:induction false} EnteredConcat<M>(a: seq<Event<M>>, b: seq<Event<M>>)
    ensures Entered(a + b) == Entered(a) + Entered(b)
  {
    if a == [] {
      assert a + b == b;
    } else {
      assert (a + b)[0] == a[0] && (a + b)[1..] == a[1..] + b;
      EnteredConcat(a[1..], b);
      assert Entered(a + b) == (if a[0].Enter? then [a[0].id] else []) + Entered(a[1..] + b);
    }
  }

  lemma {:induction false} SelectsEnterNothing<M>(f: seq<Tree<M>>)
    ensures Entered(AllSelects(f)) == []
  {
    if f != [] {
      PropsEnterNothing<M>(f[0].entry, f[0].entry.props);
      EnteredConcat<M>(Selects(f[0].entry, f[0].entry.props), AllSelects(f[1..]));
      SelectsEnterNothing(f[1..]);
    }
  }

  lemma {:induction false} PropsEnterNothing<M>(e: Entry, ps: seq<PropInfo>)
    ensures Entered<M>(Selects(e, ps)) == []
  {
    if ps != [] {
      PropsEnterNothing<M>(e, ps[1..]);
      EnteredConcat<M>(if ps[0].select.Some? then [AddRevDep(ps[0].select.value, e.sym, ps[0].visible)] else [],
                       Selects(e, ps[1..]));
    }
  }

  /** The entries stay in their order, and finalizing an entry enters exactly the entries that are
      then at or below it, each once. */
  lemma {:induction false} FinalizeKeepsOrder<M>(t: Tree<M>, rest: seq<Tree<M>>)
    ensures var (t', rest', log) := Finalize(t, rest);
            Preorder([t'] + rest') == Preorder([t] + rest) && Entered(log) == Preorder([t'])
    decreases 1 + Count(t.kids) + Count(rest), 1
  {
    hide Finalize, Hoist, Absorb, FinalizeAll, InheritAll, AllSelects, Preorder, Entered;
    PreorderOf(t, rest);
    if t.kids != [] {
      var below := InheritAll(ParentDep(t.entry), t.kids);
      var (kids, log) := FinalizeAll(below);
      FinalizeWithKids(t, rest);
      InheritingKeepsShape(ParentDep(t.entry), t.kids);
      FinalizeAllKeepsOrder(below);
      HoistKeepsOrder(kids);
      SelectsEnterNothing(below);
      EnteredBetween(t.id, AllSelects(below), log);
      assert Entered<M>(AllSelects(below)) + Entered(log) == Preorder(kids);
      PreorderOf(t.(kids := Hoist(kids)), rest);
    } else if t.entry.sym.Some? {
      var (kids, rest', log) := Absorb(t.entry, rest);
      var end: seq<Event<M>> := [AddDirDep(t.entry.sym.value, t.entry.dep)];
      FinalizeWithSymbol(t, rest);
      AbsorbKeepsOrder(t.entry, rest);
      HoistKeepsOrder(kids);
      EnteredBetween(t.id, log, end);
      DirDepEntersNothing<M>(t.entry.sym.value, t.entry.dep);
      assert Entered(log) + Entered(end) == Preorder(kids);
      PreorderOf(t.(kids := Hoist(kids)), rest');
    } else {
      FinalizeAlone(t, rest);
      EnteredAlone(t);
    }
  }

  lemma EnteredAlone<M>(t: Tree<M>)
    requires t.kids == []
    ensures Entered([Enter(t.id)]) == Preorder([t])
  {
    assert [Enter(t.id)][1..] == [];
  }

  lemma DirDepEntersNothing<M>(s: Symbol, dep: Option<Expr>)
    ensures Entered<M>([AddDirDep(s, dep)]) == []
  {
    var log: seq<Event<M>> := [AddDirDep(s, dep)];
    assert log[1..] == [];
  }

  // the three cases of Finalize

  lemma FinalizeWithKids<M>(t: Tree<M>, rest: seq<Tree<M>>)
    requires t.kids != []
    ensures var below := InheritAll(ParentDep(t.entry), t.kids);
            var (kids, log) := FinalizeAll(below);
            Finalize(t, rest) == (t.(kids := Hoist(kids)), rest, [Enter(t.id)] + AllSelects(below) + log)
  {
  }

  lemma FinalizeWithSymbol<M>(t: Tree<M>, rest: seq<Tree<M>>)
    requires t.kids == [] && t.entry.sym.Some?
    ensures var (kids, rest', log) := Absorb(t.entry, rest);
            Finalize(t, rest)
            == (t.(kids := Hoist(kids)), rest', [Enter(t.id)] + log + [AddDirDep(t.entry.sym.value, t.entry.dep)])
  {
  }

  lemma FinalizeAlone<M>(t: Tree<M>, rest: seq<Tree<M>>)
    requires t.kids == [] && t.entry.sym == None
    ensures Finalize(t, rest) == (t, rest, [Enter(t.id)])
  {
  }

  lemma PreorderOf<M>(t: Tree<M>, rest: seq<Tree<M>>)
    ensures Preorder([t]) == [t.id] + Preorder(t.kids)
    ensures Preorder([t] + rest) == [t.id] + (Preorder(t.kids) + Preorder(rest))
    ensures t.kids == [] ==> Preorder(t.kids) + Preorder(rest) == Preorder(rest)
  {
    assert ([t] + rest)[1..] == rest;
  }

  lemma EnteredBetween<M>(id: M, a: seq<Event<M>>, b: seq<Event<M>>)
    ensures Entered([Enter(id)] + a + b) == [id] + (Entered(a) + Entered(b))
  {
    EnteredConcat([Enter(id)] + a, b);
    EnteredConcat([Enter(id)], a);
  }

  lemma {:induction false} FinalizeAllKeepsOrder<M>(f: seq<Tree<M>>)
    ensures var (f', log) := FinalizeAll(f); Preorder(f') == Preorder(f) && Entered(log) == Preorder(f')
    decreases Count(f), 2
  {
    if f != [] {
      var (t, rest, log) := Finalize(f[0], f[1..]);
      var (more, log') := FinalizeAll(rest);
      assert [f[0]] + f[1..] == f;
      FinalizeKeepsOrder(f[0], f[1..]);
      FinalizeAllKeepsOrder(rest);
      CountConcat([t], rest);
      CountConcat([t], more);
      EnteredConcat(log, log');
    }
  }

  lemma {:induction false} AbsorbKeepsOrder<M>(e: Entry, f: seq<Tree<M>>)
    requires e.sym.Some?
    ensures var (kids, rest, log) := Absorb(e, f);
            Preorder(kids) + Preorder(rest) == Preorder(f) && Entered(log) == Preorder(kids)
    decreases Count(f), 2
  {
    if f != [] && Follows(e, f[0].entry) {
      var (t, rest, log) := Finalize(f[0], f[1..]);
      var (more, rest', log') := Absorb(e, rest);
      assert [f[0]] + f[1..] == f;
      FinalizeKeepsOrder(f[0], f[1..]);
      AbsorbKeepsOrder(e, rest);
      CountConcat([t], rest);
      CountConcat([t], more);
      EnteredConcat(log, log');
    }
  }

  // ---------- only entries with a prompt keep anything below them ----------

  predicate Prompted<M>(f: seq<Tree<M>>) {
    f == [] || ((f[0].kids != [] ==> HasText(f[0].entry)) && Prompted(f[0].kids) && Prompted(f[1..]))
  }

  predicate KidsPrompted<M>(f: seq<Tree<M>>) {
    f == [] || (Prompted(f[0].kids) && KidsPrompted(f[1..]))
  }

  lemma {:induction false} PromptedConcat<M>(f: seq<Tree<M>>, g: seq<Tree<M>>)
    requires Prompted(f) && KidsPrompted(g)
    ensures KidsPrompted(f + g)
  {
    if f == [] {
      assert f + g == g;
    } else {
      assert (f + g)[1..] == f[1..] + g;
      PromptedConcat(f[1..], g);
    }
  }

  lemma {:induction false} HoistLeavesPrompted<M>(f: seq<Tree<M>>)
    requires KidsPrompted(f)
    ensures Prompted(Hoist(f))
    decreases Count(f)
  {
    if f != [] {
      if f[0].kids != [] && !HasText(f[0].entry) {
        CountConcat(f[0].kids, f[1..]);
        PromptedConcat(f[0].kids, f[1..]);
        HoistLeavesPrompted(f[0].kids + f[1..]);
        assert ([f[0].(kids := [])] + Hoist(f[0].kids + f[1..]))[1..] == Hoist(f[0].kids + f[1..]);
      } else {
        HoistLeavesPrompted(f[1..]);
        assert ([f[0]] + Hoist(f[1..]))[1..] == Hoist(f[1..]);
      }
    }
  }

  /** Once an entry is finalized, whatever has something below it, from there downwards, has a prompt
      text to show for it. */
  lemma {:induction false} FinalizeLeavesPrompted<M>(t: Tree<M>, rest: seq<Tree<M>>)
    ensures Prompted(Finalize(t, rest).0.kids)
    decreases 1 + Count(t.kids) + Count(rest), 1
  {
    if t.kids != [] {
      InheritingKeepsShape(ParentDep(t.entry), t.kids);
      var (kids, _) := FinalizeAll(InheritAll(ParentDep(t.entry), t.kids));
      FinalizeAllLeavesPrompted(InheritAll(ParentDep(t.entry), t.kids));
      HoistLeavesPrompted(kids);
    } else if t.entry.sym.Some? {
      AbsorbLeavesPrompted(t.entry, rest);
      HoistLeavesPrompted(Absorb(t.entry, rest).0);
    }
  }

  lemma {:induction false} FinalizeAllLeavesPrompted<M>(f: seq<Tree<M>>)
    ensures KidsPrompted(FinalizeAll(f).0)
    decreases Count(f), 2
  {
    if f != [] {
      var (t, rest, _) := Finalize(f[0], f[1..]);
      FinalizeLeavesPrompted(f[0], f[1..]);
      FinalizeAllLeavesPrompted(rest);
      assert ([t] + FinalizeAll(rest).0)[1..] == FinalizeAll(rest).0;
    }
  }

  lemma {:induction false} AbsorbLeavesPrompted<M>(e: Entry, f: seq<Tree<M>>)
    requires e.sym.Some?
    ensures KidsPrompted(Absorb(e, f).0)
    decreases Count(f), 2
  {
    if f != [] && Follows(e, f[0].entry) {
      var (t, rest, _) := Finalize(f[0], f[1..]);
      FinalizeLeavesPrompted(f[0], f[1..]);
      AbsorbLeavesPrompted(e, rest);
      assert ([t] + Absorb(e, rest).0)[1..] == Absorb(e, rest).0;
    }
  }

  // ---------- every condition ends up in negation normal form ----------

  ghost predicate NormalEntry(e: Entry) {
    && NnfOpt(e.dep) && (e.dep.Some? ==> Irredundant(e.dep.value))
    && var tristate := e.sym.None? || e.sym.value.Type().Tristate?;
    && (e.prompt.Some? ==> NormalPrompt(e.prompt.value.visible, tristate))
    && forall p :: p in e.props ==> NormalPrompt(p.visible, tristate)
  }

  /** Duplicates are gone as well, and comparisons with n that a symbol which is not tristate has no use for. */
  ghost predicate NormalPrompt(e: Option<Expr>, tristate: bool) {
    NnfOpt(e) && (e.Some? ==> if tristate then Irredundant(e.value) else NothingToRewrite(e.value))
  }

  lemma InheritedPromptIsNormal(base: Option<Expr>, own: Option<Expr>, tristate: bool)
    requires NnfOpt(base)
    ensures NormalPrompt(InheritPrompt(base, own, tristate), tristate)
  {
    InheritedIsNnf(base, own, tristate);
    InheritedIsIrredundant(base, own);
    if Inherit(base, own).Some? {
      TransBoolRewritesAll(Inherit(base, own).value);
    }
  }

  /** Of the entries themselves ... */
  ghost predicate NormalTops<M>(f: seq<Tree<M>>) {
    forall i :: 0 <= i < |f| ==> NormalEntry(f[i].entry)
  }

  /** ... and of everything below them. */
  ghost predicate Normal<M>(f: seq<Tree<M>>) {
    f == [] || (NormalEntry(f[0].entry) && Normal(f[0].kids) && Normal(f[1..]))
  }

  lemma {:induction false} InheritedPropsAreNormal(base: Option<Expr>, ps: seq<PropInfo>, tristate: bool)
    requires NnfOpt(base)
    ensures forall p :: p in InheritProps(base, ps, tristate) ==> NormalPrompt(p.visible, tristate)
  {
    if ps != [] {
      InheritedPromptIsNormal(base, ps[0].visible, tristate);
      InheritedPropsAreNormal(base, ps[1..], tristate);
    }
  }

  lemma {:induction false} InheritedEntriesAreNormal<M>(parentDep: Option<Expr>, f: seq<Tree<M>>)
    requires NnfOpt(parentDep)
    ensures NormalTops(InheritAll(parentDep, f))
  {
    if f != [] {
      var e := f[0].entry;
      var base := Inherit(parentDep, e.dep);
      InheritedIsNnf(parentDep, e.dep, true);
      InheritedIsIrredundant(parentDep, e.dep);
      if e.prompt.Some? {
        InheritedPromptIsNormal(base, e.prompt.value.visible, KeepsMod(e));
      }
      InheritedPropsAreNormal(base, e.props, KeepsMod(e));
      InheritedEntriesAreNormal(parentDep, f[1..]);
    }
  }

  lemma {:induction false} NormalConcat<M>(f: seq<Tree<M>>, g: seq<Tree<M>>)
    requires Normal(f) && Normal(g)
    ensures Normal(f + g)
  {
    if f == [] {
      assert f + g == g;
    } else {
      assert (f + g)[1..] == f[1..] + g;
      NormalConcat(f[1..], g);
    }
  }

  lemma {:induction false} HoistKeepsNormal<M>(f: seq<Tree<M>>)
    requires Normal(f)
    ensures Normal(Hoist(f))
    decreases Count(f)
  {
    if f != [] {
      if f[0].kids != [] && !HasText(f[0].entry) {
        CountConcat(f[0].kids, f[1..]);
        NormalConcat(f[0].kids, f[1..]);
        HoistKeepsNormal(f[0].kids + f[1..]);
        assert ([f[0].(kids := [])] + Hoist(f[0].kids + f[1..]))[1..] == Hoist(f[0].kids + f[1..]);
      } else {
        HoistKeepsNormal(f[1..]);
        assert ([f[0]] + Hoist(f[1..]))[1..] == Hoist(f[1..]);
      }
    }
  }

  /** If the condition an entry hands down is in normal form, so is, once it is finalized, every condition of
      every entry below it. The root's is null. */
  lemma {:induction false} FinalizeIsNormal<M>(t: Tree<M>, rest: seq<Tree<M>>)
    requires NnfOpt(ParentDep(t.entry)) && NormalTops(rest)
    ensures Normal(Finalize(t, rest).0.kids) && NormalTops(Finalize(t, rest).1)
    decreases 1 + Count(t.kids) + Count(rest), 1
  {
    if t.kids != [] {
      var below := InheritAll(ParentDep(t.entry), t.kids);
      InheritingKeepsShape(ParentDep(t.entry), t.kids);
      InheritedEntriesAreNormal(ParentDep(t.entry), t.kids);
      FinalizeAllIsNormal(below);
      HoistKeepsNormal(FinalizeAll(below).0);
    } else if t.entry.sym.Some? {
      AbsorbIsNormal(t.entry, rest);
      HoistKeepsNormal(Absorb(t.entry, rest).0);
    }
  }

  lemma {:induction false} FinalizeAllIsNormal<M>(f: seq<Tree<M>>)
    requires NormalTops(f)
    ensures Normal(FinalizeAll(f).0)
    decreases Count(f), 2
  {
    if f != [] {
      var (t, rest, _) := Finalize(f[0], f[1..]);
      FinalizeIsNormal(f[0], f[1..]);
      FinalizeKeepsEntry(f[0], f[1..]);
      FinalizeAllIsNormal(rest);
      assert ([t] + FinalizeAll(rest).0)[1..] == FinalizeAll(rest).0;
    }
  }

  lemma {:induction false} AbsorbIsNormal<M>(e: Entry, f: seq<Tree<M>>)
    requires e.sym.Some? && NormalTops(f)
    ensures Normal(Absorb(e, f).0) && NormalTops(Absorb(e, f).1)
    decreases Count(f), 2
  {
    if f != [] && Follows(e, f[0].entry) {
      var (t, rest, _) := Finalize(f[0], f[1..]);
      FinalizeIsNormal(f[0], f[1..]);
      FinalizeKeepsEntry(f[0], f[1..]);
      AbsorbIsNormal(e, rest);
      assert ([t] + Absorb(e, rest).0)[1..] == Absorb(e, rest).0;
    }
  }

  // ---------- what the conditions of the finalized tree mean ----------

  function Entries<M>(f: seq<Tree<M>>): seq<Entry> {
    if f == [] then [] else [f[0].entry] + Entries(f[0].kids) + Entries(f[1..])
  }

  /** What becomes of all entries, in preorder, when the conditions of the topmost have been rewritten: every
      entry inherits from the one that was its parent before anything moved. */
  function Finals<M>(f: seq<Tree<M>>): seq<Entry>
    decreases Count(f)
  {
    if f == [] then []
    else
      var below := InheritAll(ParentDep(f[0].entry), f[0].kids);
      InheritingKeepsShape(ParentDep(f[0].entry), f[0].kids);
      [f[0].entry] + Finals(below) + Finals(f[1..])
  }

  lemma {:induction false} EntriesConcat<M>(f: seq<Tree<M>>, g: seq<Tree<M>>)
    ensures Entries(f + g) == Entries(f) + Entries(g)
  {
    if f == [] {
      assert f + g == g;
    } else {
      assert (f + g)[1..] == f[1..] + g;
      EntriesConcat(f[1..], g);
    }
  }

  lemma {:induction false} HoistKeepsEntries<M>(f: seq<Tree<M>>)
    ensures Entries(Hoist(f)) == Entries(f)
    decreases Count(f)
  {
    if f != [] {
      if f[0].kids != [] && !HasText(f[0].entry) {
        CountConcat(f[0].kids, f[1..]);
        EntriesConcat(f[0].kids, f[1..]);
        HoistKeepsEntries(f[0].kids + f[1..]);
        assert ([f[0].(kids := [])] + Hoist(f[0].kids + f[1..]))[1..] == Hoist(f[0].kids + f[1..]);
      } else {
        HoistKeepsEntries(f[1..]);
        assert ([f[0]] + Hoist(f[1..]))[1..] == Hoist(f[1..]);
      }
    }
  }

  lemma EntriesOf<M>(t: Tree<M>, rest: seq<Tree<M>>)
    ensures Entries([t]) == [t.entry] + Entries(t.kids)
    ensures Entries([t] + rest) == [t.entry] + Entries(t.kids) + Entries(rest)
    ensures Finals([t] + rest) == [t.entry] + Finals(InheritAll(ParentDep(t.entry), t.kids)) + Finals(rest)
  {
    assert [t][1..] == [] && ([t] + rest)[1..] == rest;
  }

  /** An entry that is finalized, together with what it has taken in. */
  lemma {:induction false} FinalizeGivesFinals<M>(t: Tree<M>, rest: seq<Tree<M>>)
    ensures Entries([Finalize(t, rest).0]) + Finals(Finalize(t, rest).1) == Finals([t] + rest)
    decreases 1 + Count(t.kids) + Count(rest), 1
  {
    hide Finalize, Hoist, Absorb, FinalizeAll, InheritAll, Entries, Finals;
    EntriesOf(t, rest);
    if t.kids != [] {
      var below := InheritAll(ParentDep(t.entry), t.kids);
      FinalizeWithKids(t, rest);
      InheritingKeepsShape(ParentDep(t.entry), t.kids);
      FinalizeAllGivesFinals(below);
      HoistKeepsEntries(FinalizeAll(below).0);
      EntriesOf(t.(kids := Hoist(FinalizeAll(below).0)), rest);
    } else if t.entry.sym.Some? {
      var (kids, rest', _) := Absorb(t.entry, rest);
      FinalizeWithSymbol(t, rest);
      AbsorbGivesFinals(t.entry, rest);
      HoistKeepsEntries(kids);
      EntriesOf(t.(kids := Hoist(kids)), rest');
      NothingInherited<M>(ParentDep(t.entry));
      assert [t.entry] + Entries(kids) + Finals(rest') == [t.entry] + (Entries(kids) + Finals(rest'));
    } else {
      FinalizeAlone(t, rest);
      NothingInherited<M>(ParentDep(t.entry));
    }
  }

  lemma NothingInherited<M>(parentDep: Option<Expr>)
    ensures InheritAll<M>(parentDep, []) == [] && Finals<M>([]) == [] && Entries<M>([]) == []
  {
  }

  lemma {:induction false} FinalizeAllGivesFinals<M>(f: seq<Tree<M>>)
    ensures Entries(FinalizeAll(f).0) == Finals(f)
    decreases Count(f), 2
  {
    if f != [] {
      var (t, rest, _) := Finalize(f[0], f[1..]);
      FinalizeGivesFinals(f[0], f[1..]);
      FinalizeAllGivesFinals(rest);
      EntriesConcat([t], FinalizeAll(rest).0);
      assert [f[0]] + f[1..] == f;
    }
  }

  lemma {:induction false} AbsorbGivesFinals<M>(e: Entry, f: seq<Tree<M>>)
    requires e.sym.Some?
    ensures Entries(Absorb(e, f).0) + Finals(Absorb(e, f).1) == Finals(f)
    decreases Count(f), 2
  {
    hide Entries, Finals, Finalize, Follows;
    NothingInherited<M>(None);
    if f != [] && Follows(e, f[0].entry) {
      var (t, rest, _) := Finalize(f[0], f[1..]);
      var (more, rest', _) := Absorb(e, rest);
      FinalizeGivesFinals(f[0], f[1..]);
      AbsorbGivesFinals(e, rest);
      EntriesConcat([t], more);
      assert [f[0]] + f[1..] == f;
      assert Entries([t]) + Entries(more) + Finals(rest') == Entries([t]) + (Entries(more) + Finals(rest'));
    }
  }

  /** What an entry hands down, in terms of the conditions it was given: h is what it has been handed. */
  function Handed(v: Valuation, h: Tri, e: Entry): Tri {
    var own := Min(h, ValueOpt(v, e.dep));
    if e.prompt.Some? then Min(own, ValueOpt(v, e.prompt.value.visible)) else own
  }

  /** What the conditions of an entry mean: the minimum of its own and of all those handed down to it, for its prompt
      and its properties also of theirs. */
  datatype Meaning = Meaning(sym: Option<Symbol>, dep: Tri, prompt: Option<Tri>, props: seq<(Tri, Option<Symbol>)>)

  function MeaningOf(v: Valuation, h: Tri, e: Entry): Meaning {
    var own := Min(h, ValueOpt(v, e.dep));
    Meaning(e.sym, own, if e.prompt.Some? then Some(Min(own, ValueOpt(v, e.prompt.value.visible))) else None,
            seq(|e.props|, i requires 0 <= i < |e.props| =>
                  (Min(own, ValueOpt(v, e.props[i].visible)), e.props[i].select)))
  }

  function Meant<M>(v: Valuation, h: Tri, f: seq<Tree<M>>): seq<Meaning>
    decreases Count(f)
  {
    if f == [] then []
    else [MeaningOf(v, h, f[0].entry)] + Meant(v, Handed(v, h, f[0].entry), f[0].kids) + Meant(v, h, f[1..])
  }

  /** n stays n; and unless a tristate symbol is m, what is decided stays as it is. */
  ghost predicate Kept(v: Valuation, meant: Tri, is_: Tri) {
    (meant == NO ==> is_ == NO) && (NoTristateIsMod(v) ==> Refines(meant, is_))
  }

  lemma InheritKeeps(v: Valuation, parentDep: Option<Expr>, h: Tri, own: Option<Expr>, tristate: bool)
    requires v.WellFormed() && NnfOpt(parentDep) && Kept(v, h, ValueOpt(v, parentDep))
    ensures NnfOpt(Inherit(parentDep, own)) && NnfOpt(InheritPrompt(parentDep, own, tristate))
    ensures Kept(v, Min(h, ValueOpt(v, own)), ValueOpt(v, Inherit(parentDep, own)))
    ensures Kept(v, Min(h, ValueOpt(v, own)), ValueOpt(v, InheritPrompt(parentDep, own, tristate)))
  {
    InheritedIsNnf(parentDep, own, tristate);
    InheritMeansBoth(v, parentDep, own);
    var e := Inherit(parentDep, own);
    if e.Some? {
      TransBoolKeepsNotNo(v, e.value);
      if NoTristateIsMod(v) {
        TransBoolKeepsValue(v, e.value);
      }
    }
  }

  /** The conditions of e mean what they should, and the rest is as it was. */
  ghost predicate EntryKept(v: Valuation, m: Meaning, e: Entry) {
    && m.sym == e.sym && Kept(v, m.dep, ValueOpt(v, e.dep))
    && m.prompt.Some? == e.prompt.Some?
    && (m.prompt.Some? ==> Kept(v, m.prompt.value, ValueOpt(v, e.prompt.value.visible)))
    && |m.props| == |e.props|
    && forall i :: 0 <= i < |m.props| ==>
         Kept(v, m.props[i].0, ValueOpt(v, e.props[i].visible)) && m.props[i].1 == e.props[i].select
  }

  ghost predicate AllKept(v: Valuation, meant: seq<Meaning>, entries: seq<Entry>) {
    |meant| == |entries| && forall i :: 0 <= i < |meant| ==> EntryKept(v, meant[i], entries[i])
  }

  lemma AllKeptConcat(v: Valuation, a: seq<Meaning>, b: seq<Meaning>, c: seq<Meaning>,
                      d: seq<Entry>, e: seq<Entry>, f: seq<Entry>)
    requires AllKept(v, a, d) && AllKept(v, b, e) && AllKept(v, c, f)
    ensures AllKept(v, a + b + c, d + e + f)
  {
    hide EntryKept;
  }

  lemma {:induction false} PropsKept(v: Valuation, base: Option<Expr>, h: Tri, ps: seq<PropInfo>, tristate: bool,
                                     i: nat)
    requires v.WellFormed() && NnfOpt(base) && Kept(v, h, ValueOpt(v, base)) && i < |ps|
    ensures var ps' := InheritProps(base, ps, tristate);
            && |ps'| == |ps| && ps'[i].select == ps[i].select
            && Kept(v, Min(h, ValueOpt(v, ps[i].visible)), ValueOpt(v, ps'[i].visible))
  {
    hide Kept, InheritPrompt;
    InheritKeeps(v, base, h, ps[0].visible, tristate);
    if i > 0 {
      PropsKept(v, base, h, ps[1..], tristate, i - 1);
    } else if |ps| > 1 {
      PropsKept(v, base, h, ps[1..], tristate, 0);
    }
  }

  lemma InheritedEntryKept(v: Valuation, parentDep: Option<Expr>, h: Tri, e: Entry)
    requires v.WellFormed() && NnfOpt(parentDep) && Kept(v, h, ValueOpt(v, parentDep))
    ensures var e' := InheritEntry(parentDep, e);
            && EntryKept(v, MeaningOf(v, h, e), e')
            && NnfOpt(ParentDep(e')) && Kept(v, Handed(v, h, e), ValueOpt(v, ParentDep(e')))
  {
    hide Kept, Inherit, InheritPrompt;
    var e' := InheritEntry(parentDep, e);
    var own := Min(h, ValueOpt(v, e.dep));
    InheritKeeps(v, parentDep, h, e.dep, true);
    if e.prompt.Some? {
      InheritKeeps(v, e'.dep, own, e.prompt.value.visible, KeepsMod(e));
    }
    if e.props == [] {
      assert e'.props == [];
    } else {
      forall i | 0 <= i < |e.props|
        ensures |e'.props| == |e.props| && e'.props[i].select == e.props[i].select
        ensures Kept(v, Min(own, ValueOpt(v, e.props[i].visible)), ValueOpt(v, e'.props[i].visible))
      {
        PropsKept(v, e'.dep, own, e.props, KeepsMod(e), i);
      }
      assert |e'.props| == |e.props| by {
        PropsKept(v, e'.dep, own, e.props, KeepsMod(e), 0);
      }
    }
  }

  lemma {:induction false} FinalsMean<M>(v: Valuation, parentDep: Option<Expr>, h: Tri, f: seq<Tree<M>>)
    requires v.WellFormed() && NnfOpt(parentDep) && Kept(v, h, ValueOpt(v, parentDep))
    ensures AllKept(v, Meant(v, h, f), Finals(InheritAll(parentDep, f)))
    decreases Count(f)
  {
    hide Kept, EntryKept, MeaningOf, Inherit, InheritPrompt;
    if f != [] {
      var e := f[0].entry;
      var e' := InheritEntry(parentDep, e);
      InheritedEntryKept(v, parentDep, h, e);
      FinalsMean(v, ParentDep(e'), Handed(v, h, e), f[0].kids);
      FinalsMean(v, parentDep, h, f[1..]);
      EntriesOf(f[0].(entry := e'), InheritAll(parentDep, f[1..]));
      AllKeptConcat(v, [MeaningOf(v, h, e)], Meant(v, Handed(v, h, e), f[0].kids), Meant(v, h, f[1..]),
                    [e'], Finals(InheritAll(ParentDep(e'), f[0].kids)), Finals(InheritAll(parentDep, f[1..])));
    }
  }

  /** In the finalized tree the condition of every entry, of its prompt and of each of its properties means the
      conjunction of that condition and of all those above it in the tree as it was: it is n where that is n, and
      while no tristate symbol is m, it has its value wherever that is y or n. */
  lemma FinalConditionsMean<M>(v: Valuation, root: Tree<M>)
    requires v.WellFormed() && NnfOpt(ParentDep(root.entry)) && root.kids != []
    ensures AllKept(v, Meant(v, ValueOpt(v, ParentDep(root.entry)), root.kids), Entries(Finalize(root, []).0.kids))
  {
    var below := InheritAll(ParentDep(root.entry), root.kids);
    FinalizeWithKids(root, []);
    FinalizeAllGivesFinals(below);
    HoistKeepsEntries(FinalizeAll(below).0);
    FinalsMean(v, ParentDep(root.entry), ValueOpt(v, ParentDep(root.entry)), root.kids);
  }

  // ---------- what reaches the symbols ----------

  /** How many properties select the target under the condition d. */
  function SelectingProps(ps: seq<PropInfo>, target: Symbol, d: Option<Expr>): nat {
    if ps == [] then 0
    else (if ps[0].select == Some(target) && ps[0].visible == d then 1 else 0) + SelectingProps(ps[1..], target, d)
  }

  /** How often entries of the symbol s select the target under the condition d. */
  function Selections(es: seq<Entry>, target: Symbol, s: Option<Symbol>, d: Option<Expr>): nat {
    if es == [] then 0
    else (if es[0].sym == s then SelectingProps(es[0].props, target, d) else 0) + Selections(es[1..], target, s, d)
  }

  lemma {:induction false} SelectionsConcat(a: seq<Entry>, b: seq<Entry>, target: Symbol, s: Option<Symbol>,
                                            d: Option<Expr>)
    ensures Selections(a + b, target, s, d) == Selections(a, target, s, d) + Selections(b, target, s, d)
  {
    if a == [] {
      assert a + b == b;
    } else {
      assert (a + b)[1..] == a[1..] + b;
      SelectionsConcat(a[1..], b, target, s, d);
    }
  }

  lemma {:induction false} SelectingPropsExist(ps: seq<PropInfo>, target: Symbol, d: Option<Expr>)
    ensures SelectingProps(ps, target, d) > 0 <==> exists p :: p in ps && p.select == Some(target) && p.visible == d
  {
    if ps != [] {
      SelectingPropsExist(ps[1..], target, d);
      if p :| p in ps && p.select == Some(target) && p.visible == d {
        assert p == ps[0] || p in ps[1..];
      }
    }
  }

  lemma {:induction false} SelectionsExist(es: seq<Entry>, target: Symbol, s: Option<Symbol>, d: Option<Expr>)
    ensures Selections(es, target, s, d) > 0
       <==> exists e, p :: e in es && e.sym == s && p in e.props && p.select == Some(target) && p.visible == d
  {
    if es != [] {
      SelectingPropsExist(es[0].props, target, d);
      SelectionsExist(es[1..], target, s, d);
      if e, p :| e in es && e.sym == s && p in e.props && p.select == Some(target) && p.visible == d {
        assert e == es[0] || e in es[1..];
      }
      if e, p :| e in es[1..] && e.sym == s && p in e.props && p.select == Some(target) && p.visible == d {
        assert e in es;
      }
    }
  }

  lemma {:induction false} SelectsCounted<M>(e: Entry, ps: seq<PropInfo>, target: Symbol, s: Option<Symbol>,
                                             d: Option<Expr>)
    ensures multiset(Selects<M>(e, ps))[AddRevDep(target, s, d)]
         == if e.sym == s then SelectingProps(ps, target, d) else 0
  {
    if ps != [] {
      SelectsCounted<M>(e, ps[1..], target, s, d);
    }
  }

  function Tops<M>(f: seq<Tree<M>>): seq<Entry> {
    if f == [] then [] else [f[0].entry] + Tops(f[1..])
  }

  /** What becomes of the entries below those of f. */
  function Below<M>(f: seq<Tree<M>>): seq<Entry> {
    if f == [] then [] else Finals(InheritAll(ParentDep(f[0].entry), f[0].kids)) + Below(f[1..])
  }

  lemma {:induction false} AllSelectsCounted<M>(f: seq<Tree<M>>, target: Symbol, s: Option<Symbol>, d: Option<Expr>)
    ensures multiset(AllSelects(f))[AddRevDep(target, s, d)] == Selections(Tops(f), target, s, d)
  {
    if f != [] {
      SelectsCounted<M>(f[0].entry, f[0].entry.props, target, s, d);
      AllSelectsCounted(f[1..], target, s, d);
      assert Tops(f)[1..] == Tops(f[1..]);
    }
  }

  lemma {:induction false} TopsAndBelow<M>(f: seq<Tree<M>>, target: Symbol, s: Option<Symbol>, d: Option<Expr>)
    ensures Selections(Finals(f), target, s, d)
         == Selections(Tops(f), target, s, d) + Selections(Below(f), target, s, d)
  {
    if f != [] {
      var below := Finals(InheritAll(ParentDep(f[0].entry), f[0].kids));
      TopsAndBelow(f[1..], target, s, d);
      SelectionsConcat([f[0].entry] + below, Finals(f[1..]), target, s, d);
      SelectionsConcat([f[0].entry], below, target, s, d);
      SelectionsConcat([f[0].entry], Tops(f[1..]), target, s, d);
      SelectionsConcat(below, Below(f[1..]), target, s, d);
    }
  }

  lemma BelowOf<M>(t: Tree<M>, rest: seq<Tree<M>>, target: Symbol, s: Option<Symbol>, d: Option<Expr>)
    ensures Selections(Below([t] + rest), target, s, d)
         == Selections(Finals(InheritAll(ParentDep(t.entry), t.kids)), target, s, d)
            + Selections(Below(rest), target, s, d)
  {
    assert ([t] + rest)[1..] == rest;
    SelectionsConcat(Finals(InheritAll(ParentDep(t.entry), t.kids)), Below(rest), target, s, d);
  }

  /** What is logged for an entry, and what is left to be logged for the siblings that are left. */
  lemma {:induction false} SelectsLogged<M>(t: Tree<M>, rest: seq<Tree<M>>, target: Symbol, s: Option<Symbol>,
                                            d: Option<Expr>)
    ensures multiset(Finalize(t, rest).2)[AddRevDep(target, s, d)]
            + Selections(Below(Finalize(t, rest).1), target, s, d)
         == Selections(Below([t] + rest), target, s, d)
    decreases 1 + Count(t.kids) + Count(rest), 1
  {
    hide Finalize, Hoist, Absorb, FinalizeAll, InheritAll, AllSelects, Selections, Below, Finals;
    BelowOf(t, rest, target, s, d);
    if t.kids != [] {
      var below := InheritAll(ParentDep(t.entry), t.kids);
      FinalizeWithKids(t, rest);
      InheritingKeepsShape(ParentDep(t.entry), t.kids);
      AllSelectsCounted(below, target, s, d);
      SelectsLoggedBelow(below, target, s, d);
      TopsAndBelow(below, target, s, d);
    } else {
      NothingSelected<M>(ParentDep(t.entry), target, s, d);
      if t.entry.sym.Some? {
        FinalizeWithSymbol(t, rest);
        SelectsLoggedAfter(t.entry, rest, target, s, d);
      } else {
        FinalizeAlone(t, rest);
      }
    }
  }

  lemma NothingSelected<M>(parentDep: Option<Expr>, target: Symbol, s: Option<Symbol>, d: Option<Expr>)
    ensures Selections(Finals(InheritAll<M>(parentDep, [])), target, s, d) == 0
  {
  }

  lemma BothLogs<M>(a: seq<Event<M>>, b: seq<Event<M>>, x: Event<M>)
    ensures multiset(a + b)[x] == multiset(a)[x] + multiset(b)[x]
  {
    assert multiset(a + b) == multiset(a) + multiset(b);
  }

  lemma {:induction false} SelectsLoggedBelow<M>(f: seq<Tree<M>>, target: Symbol, s: Option<Symbol>, d: Option<Expr>)
    ensures multiset(FinalizeAll(f).1)[AddRevDep(target, s, d)] == Selections(Below(f), target, s, d)
    decreases Count(f), 2
  {
    if f != [] {
      hide Finalize, Selections, Below;
      var (t, rest, log) := Finalize(f[0], f[1..]);
      var (more, log') := FinalizeAll(rest);
      SelectsLogged(f[0], f[1..], target, s, d);
      SelectsLoggedBelow(rest, target, s, d);
      assert [f[0]] + f[1..] == f;
      BothLogs(log, log', AddRevDep(target, s, d));
    }
  }

  lemma {:induction false} SelectsLoggedAfter<M>(e: Entry, f: seq<Tree<M>>, target: Symbol, s: Option<Symbol>,
                                                 d: Option<Expr>)
    requires e.sym.Some?
    ensures multiset(Absorb(e, f).2)[AddRevDep(target, s, d)] + Selections(Below(Absorb(e, f).1), target, s, d)
         == Selections(Below(f), target, s, d)
    decreases Count(f), 2
  {
    hide Finalize, Selections, Below, Follows;
    if f != [] && Follows(e, f[0].entry) {
      var (t, rest, log) := Finalize(f[0], f[1..]);
      var (more, rest', log') := Absorb(e, rest);
      SelectsLogged(f[0], f[1..], target, s, d);
      SelectsLoggedAfter(e, rest, target, s, d);
      assert [f[0]] + f[1..] == f;
      BothLogs(log, log', AddRevDep(target, s, d));
    }
  }

  /** A select reaches rev_dep of its target exactly as often as it stands in the finalized tree, with the condition it
      has there. */
  lemma RevDepsAreSelects<M>(root: Tree<M>, target: Symbol, s: Option<Symbol>, d: Option<Expr>)
    ensures multiset(Finalize(root, []).2)[AddRevDep(target, s, d)]
         == Selections(Entries(Finalize(root, []).0.kids), target, s, d)
  {
    SelectsLogged(root, [], target, s, d);
    FinalizeGivesFinals(root, []);
    NothingAfter(root);
    assert [root] + [] == [root];
    var t' := Finalize(root, []).0;
    EntriesOf(t', []);
    EntriesOf(root, []);
    assert [t'] + [] == [t'];
    BelowOf(root, [], target, s, d);
    FinalizeKeepsEntry(root, []);
    var below := Finals(InheritAll(ParentDep(root.entry), root.kids));
    assert [root.entry] + Entries(t'.kids) == [root.entry] + below;
    assert ([root.entry] + Entries(t'.kids))[1..] == Entries(t'.kids) && ([root.entry] + below)[1..] == below;
  }

  lemma NothingAfter<M>(t: Tree<M>)
    ensures Finalize(t, []).1 == [] && Finals<M>([]) == [] && Below<M>([]) == []
  {
  }

  /** What becomes of the entries that had nothing below them: only these are given a dir_dep. */
  function Leaves<M>(f: seq<Tree<M>>): seq<Entry>
    decreases Count(f)
  {
    if f == [] then []
    else
      var below := InheritAll(ParentDep(f[0].entry), f[0].kids);
      InheritingKeepsShape(ParentDep(f[0].entry), f[0].kids);
      (if f[0].kids == [] then [f[0].entry] else Leaves(below)) + Leaves(f[1..])
  }

  /** How many entries of s have the condition d. */
  function Dependencies(es: seq<Entry>, s: Symbol, d: Option<Expr>): nat {
    if es == [] then 0
    else (if es[0].sym == Some(s) && es[0].dep == d then 1 else 0) + Dependencies(es[1..], s, d)
  }

  lemma {:induction false} DependenciesConcat(a: seq<Entry>, b: seq<Entry>, s: Symbol, d: Option<Expr>)
    ensures Dependencies(a + b, s, d) == Dependencies(a, s, d) + Dependencies(b, s, d)
  {
    if a == [] {
      assert a + b == b;
    } else {
      assert (a + b)[1..] == a[1..] + b;
      DependenciesConcat(a[1..], b, s, d);
    }
  }

  lemma LeavesOf<M>(t: Tree<M>, rest: seq<Tree<M>>, s: Symbol, d: Option<Expr>)
    ensures Dependencies(Leaves([t] + rest), s, d)
         == Dependencies(if t.kids == [] then [t.entry] else Leaves(InheritAll(ParentDep(t.entry), t.kids)), s, d)
            + Dependencies(Leaves(rest), s, d)
  {
    assert ([t] + rest)[1..] == rest;
    DependenciesConcat(if t.kids == [] then [t.entry] else Leaves(InheritAll(ParentDep(t.entry), t.kids)),
                       Leaves(rest), s, d);
  }

  lemma {:induction false} SelectsAddNoDirDep<M>(f: seq<Tree<M>>, s: Symbol, d: Option<Expr>)
    ensures multiset(AllSelects(f))[AddDirDep(s, d)] == 0
  {
    if f != [] {
      PropsAddNoDirDep<M>(f[0].entry, f[0].entry.props, s, d);
      SelectsAddNoDirDep(f[1..], s, d);
    }
  }

  lemma {:induction false} PropsAddNoDirDep<M>(e: Entry, ps: seq<PropInfo>, s: Symbol, d: Option<Expr>)
    ensures multiset(Selects<M>(e, ps))[AddDirDep(s, d)] == 0
  {
    if ps != [] {
      PropsAddNoDirDep<M>(e, ps[1..], s, d);
    }
  }

  lemma {:induction false} DirDepsLogged<M>(t: Tree<M>, rest: seq<Tree<M>>, s: Symbol, d: Option<Expr>)
    ensures multiset(Finalize(t, rest).2)[AddDirDep(s, d)] + Dependencies(Leaves(Finalize(t, rest).1), s, d)
         == Dependencies(Leaves([t] + rest), s, d)
    decreases 1 + Count(t.kids) + Count(rest), 1
  {
    hide Finalize, Hoist, Absorb, FinalizeAll, InheritAll, AllSelects, Leaves;
    LeavesOf(t, rest, s, d);
    if t.kids != [] {
      var below := InheritAll(ParentDep(t.entry), t.kids);
      FinalizeWithKids(t, rest);
      InheritingKeepsShape(ParentDep(t.entry), t.kids);
      SelectsAddNoDirDep(below, s, d);
      DirDepsLoggedBelow(below, s, d);
    } else {
      assert [t.entry][1..] == [];
      if t.entry.sym.Some? {
        FinalizeWithSymbol(t, rest);
        DirDepsLoggedAfter(t.entry, rest, s, d);
      } else {
        FinalizeAlone(t, rest);
      }
    }
  }

  lemma {:induction false} DirDepsLoggedBelow<M>(f: seq<Tree<M>>, s: Symbol, d: Option<Expr>)
    ensures multiset(FinalizeAll(f).1)[AddDirDep(s, d)] == Dependencies(Leaves(f), s, d)
    decreases Count(f), 2
  {
    if f != [] {
      hide Finalize, Dependencies, Leaves;
      var (t, rest, log) := Finalize(f[0], f[1..]);
      var (more, log') := FinalizeAll(rest);
      DirDepsLogged(f[0], f[1..], s, d);
      DirDepsLoggedBelow(rest, s, d);
      assert [f[0]] + f[1..] == f;
      BothLogs(log, log', AddDirDep(s, d));
    }
  }

  lemma {:induction false} DirDepsLoggedAfter<M>(e: Entry, f: seq<Tree<M>>, s: Symbol, d: Option<Expr>)
    requires e.sym.Some?
    ensures multiset(Absorb(e, f).2)[AddDirDep(s, d)] + Dependencies(Leaves(Absorb(e, f).1), s, d)
         == Dependencies(Leaves(f), s, d)
    decreases Count(f), 2
  {
    hide Finalize, Dependencies, Leaves, Follows;
    if f != [] && Follows(e, f[0].entry) {
      var (t, rest, log) := Finalize(f[0], f[1..]);
      var (more, rest', log') := Absorb(e, rest);
      DirDepsLogged(f[0], f[1..], s, d);
      DirDepsLoggedAfter(e, rest, s, d);
      assert [f[0]] + f[1..] == f;
      BothLogs(log, log', AddDirDep(s, d));
    }
  }

  /** A condition reaches dir_dep of its symbol exactly as often as entries with nothing below them have it in the
      end. */
  lemma DirDepsAreLeaves<M>(root: Tree<M>, s: Symbol, d: Option<Expr>)
    requires root.kids != []
    ensures multiset(Finalize(root, []).2)[AddDirDep(s, d)]
         == Dependencies(Leaves(InheritAll(ParentDep(root.entry), root.kids)), s, d)
  {
    DirDepsLogged(root, [], s, d);
    LeavesOf(root, [], s, d);
    FinalizeWithKids(root, []);
  }

  // ---------- what moves below an entry depends on it ----------

  lemma FinalizeKeepsEntry<M>(t: Tree<M>, rest: seq<Tree<M>>)
    ensures Finalize(t, rest).0.entry == t.entry
  {
  }

  /** What the test is: the entry's condition mentions the symbol, and one of its conjuncts asks for it or all
      conjuncts of the symbol's own prompt are among them, in the forms that are compared. */
  lemma FollowsExactly(e: Entry, m: Entry)
    requires e.sym.Some?
    ensures var dep := if m.prompt.Some? then m.prompt.value.visible else m.dep;
            var base := if e.prompt.Some? then e.prompt.value.visible else None;
            var mentioned := dep.Some? && e.sym.value in Configuration.Symbols(dep.value);
            var asked := dep.Some? && exists x :: x in OperandList(AndOp, dep.value) && AsksFor(x, e.sym.value);
            && (asked ==> Follows(e, m))
            && (Follows(e, m) ==> mentioned)
            && (Plain(NotNoForm(dep)) && Plain(NotNoForm(base)) ==>
                  (Follows(e, m) <==>
                     mentioned &&
                     (asked || (NotNoForm(dep).HasOp(AndOp) &&
                                Operands(AndOp, NotNoForm(base)) <= Operands(AndOp, NotNoForm(dep))))))
  {
    var dep := ParentDep(m);
    var base := if e.prompt.Some? then e.prompt.value.visible else None;
    if dep.Some? {
      DependsSymbolExactly(dep.value, e.sym.value);
      ContainsSymbolExactly(dep.value, e.sym.value);
      if exists x :: x in OperandList(AndOp, dep.value) && AsksFor(x, e.sym.value) {
        DependsSymbolMentions(dep.value, e.sym.value);
      }
    }
    if Plain(NotNoForm(dep)) && Plain(NotNoForm(base)) {
      ImpliedByExactly(dep, base);
    }
  }

  /** Siblings are taken in until one does not pass the test. */
  lemma {:induction false} AbsorbStops<M>(e: Entry, f: seq<Tree<M>>)
    requires e.sym.Some?
    ensures var rest := Absorb(e, f).1; rest == [] || !Follows(e, rest[0].entry)
    decreases Count(f)
  {
    if f != [] && Follows(e, f[0].entry) {
      AbsorbStops(e, Finalize(f[0], f[1..]).1);
    }
  }

  /** A symbol's entry with nothing below it takes in what follows it; no other entry does. */
  lemma FinalizeStops<M>(t: Tree<M>, rest: seq<Tree<M>>)
    ensures var left := Finalize(t, rest).1;
            if t.kids == [] && t.entry.sym.Some? then left == [] || !Follows(t.entry, left[0].entry) else left == rest
  {
    if t.kids == [] && t.entry.sym.Some? {
      AbsorbStops(t.entry, rest);
    }
  }

  lemma {:induction false} LeftAreLast<M>(t: Tree<M>, rest: seq<Tree<M>>)
    ensures forall x :: x in Finalize(t, rest).1 ==> x in rest
    decreases Count(rest), 1
  {
    if t.kids == [] && t.entry.sym.Some? {
      UntakenAreLast(t.entry, rest);
    }
  }

  lemma {:induction false} UntakenAreLast<M>(e: Entry, f: seq<Tree<M>>)
    requires e.sym.Some?
    ensures forall x :: x in Absorb(e, f).1 ==> x in f
    decreases Count(f), 0
  {
    if f != [] && Follows(e, f[0].entry) {
      LeftAreLast(f[0], f[1..]);
      UntakenAreLast(e, Finalize(f[0], f[1..]).1);
    }
  }

  lemma FirstStays<M>(e: Entry, f: seq<Tree<M>>)
    requires e.sym.Some?
    ensures var all := Absorb(e, f).0 + Absorb(e, f).1;
            (all == [] <==> f == []) && (f != [] ==> all[0].entry == f[0].entry)
  {
  }

  /** If t has become the i-th of g, and had nothing below it, then the next one does not belong below it. */
  ghost predicate Settled<M>(t: Tree<M>, g: seq<Tree<M>>, i: nat)
    requires i < |g|
  {
    && g[i].id == t.id && g[i].entry == t.entry
    && (t.kids == [] && t.entry.sym.Some? && i + 1 < |g| ==> !Follows(t.entry, g[i + 1].entry))
  }

  /** This holds of all that an entry takes in, and of the first it leaves ... */
  lemma {:induction false} AbsorbSettles<M>(e: Entry, f: seq<Tree<M>>, i: nat) returns (t: Tree<M>)
    requires e.sym.Some? && i < |Absorb(e, f).0|
    ensures t in f && Settled(t, Absorb(e, f).0 + Absorb(e, f).1, i)
    decreases Count(f)
  {
    var left := Finalize(f[0], f[1..]).1;
    var (g, rest, _) := Absorb(e, left);
    var all := Absorb(e, f).0 + rest;
    assert all[1..] == g + rest;
    FinalizeStops(f[0], f[1..]);
    LeftAreLast(f[0], f[1..]);
    if i == 0 {
      t := f[0];
      FirstStays(e, left);
    } else {
      t := AbsorbSettles(e, left, i - 1);
    }
  }

  /** ... and of all entries below one. */
  lemma {:induction false} FinalizeAllSettles<M>(f: seq<Tree<M>>, i: nat) returns (t: Tree<M>)
    requires i < |FinalizeAll(f).0|
    ensures t in f && Settled(t, FinalizeAll(f).0, i)
    decreases Count(f)
  {
    var left := Finalize(f[0], f[1..]).1;
    FinalizeStops(f[0], f[1..]);
    LeftAreLast(f[0], f[1..]);
    if i == 0 {
      t := f[0];
      assert left != [] ==> FinalizeAll(left).0[0].entry == left[0].entry;
    } else {
      t := FinalizeAllSettles(left, i - 1);
    }
  }

  /** An entry with a prompt text keeps all that is below it. */
  lemma {:induction false} HoistKeepsPrompted<M>(f: seq<Tree<M>>, t: Tree<M>)
    requires t in f && (t.kids == [] || HasText(t.entry))
    ensures t in Hoist(f)
    decreases Count(f)
  {
    if t == f[0] {
    } else if f[0].kids != [] && !HasText(f[0].entry) {
      CountConcat(f[0].kids, f[1..]);
      assert t in f[0].kids + f[1..];
      HoistKeepsPrompted(f[0].kids + f[1..], t);
    } else {
      HoistKeepsPrompted(f[1..], t);
    }
  }

  /** Everything that was taken in passed the test with the conditions it still has. */
  lemma {:induction false} AbsorbedFollow<M>(e: Entry, f: seq<Tree<M>>, i: nat)
    requires e.sym.Some? && i < |Absorb(e, f).0|
    ensures Follows(e, Absorb(e, f).0[i].entry)
    decreases Count(f)
  {
    var (t, rest, _) := Finalize(f[0], f[1..]);
    FinalizeKeepsEntry(f[0], f[1..]);
    if i > 0 {
      AbsorbedFollow(e, rest, i - 1);
    }
  }

  /** What passes the test is visible only while the entry it moves below is visible or its symbol is not n, as far
      as conditions can be compared with n; in any case the comparisons say so. */
  lemma FollowersNeedTheirParent(v: Valuation, e: Entry, m: Entry)
    requires v.WellFormed() && e.sym.Some? && e.sym.value.IsLogical() && Follows(e, m)
    ensures var dep, base := ParentDep(m), if e.prompt.Some? then e.prompt.value.visible else None;
            && (|| (ValueOpt(v, dep) != NO ==> v.tri(e.sym.value) != NO)
                || Value(v, TransCompareOpt(dep, false, SymNo)) <= Value(v, TransCompareOpt(base, false, SymNo)))
            && (ComparableOpt(v, dep) && ComparableOpt(v, base) && ValueOpt(v, dep) != NO ==>
                  v.tri(e.sym.value) != NO || ValueOpt(v, base) != NO)
  {
    var dep, base := ParentDep(m), if e.prompt.Some? then e.prompt.value.visible else None;
    if DependsSymbol(dep.value, e.sym.value) {
      DependsSymbolNeedsIt(v, dep.value, e.sym.value);
    } else {
      ImpliedByCompares(v, dep, base);
      ImpliedByIsSound(v, dep, base);
    }
  }
}
