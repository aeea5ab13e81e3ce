/** The menu entries as they are linked in memory: menu_finalize relinks them in place, and the loops
    that write configuration files walk them without a stack. */
module MenuHeaps {
  import opened Tristates
  import opened Exprs
  import opened Visibility
  import opened Submenus
  import opened MenuTrees

  /** `struct menu` */
  class Menu {
    var next: Menu?
    var parent: Menu?
    var list: Menu?
    var entry: Entry

    constructor (entry: Entry)
      ensures this.entry == entry && next == null && parent == null && list == null
    {
      this.entry := entry;
      next, parent, list := null, null, null;
    }
  }

  type Forest = seq<Tree<Menu>>

  // ---------- what the links represent ----------

  ghost function Nodes(f: Forest): set<Menu> {
    if f == [] then {} else {f[0].id} + Nodes(f[0].kids) + Nodes(f[1..])
  }

  /** No entry occurs twice. */
  ghost predicate Distinct(f: Forest) {
    f == [] ||
    (&& f[0].id !in Nodes(f[0].kids) && f[0].id !in Nodes(f[1..]) && Nodes(f[0].kids) !! Nodes(f[1..])
     && Distinct(f[0].kids) && Distinct(f[1..]))
  }

  /** The entries of a forest exist, so calls that do not touch them leave them as they are. */
  lemma {:induction false} AllExist(f: Forest)
    ensures forall m :: m in Nodes(f) ==> allocated(m)
  {
    if f != [] {
      AllExist(f[0].kids);
      AllExist(f[1..]);
    }
  }

  function First(f: Forest, tail: Menu?): Menu? {
    if f == [] then tail else f[0].id
  }

  /** The siblings f are linked below p, and the last one is followed by tail. */
  ghost predicate Placed(f: Forest, p: Menu?, tail: Menu?)
    reads Nodes(f)
  {
    f == [] ||
    (&& f[0].id.entry == f[0].entry && f[0].id.parent == p
     && f[0].id.next == First(f[1..], tail) && f[0].id.list == First(f[0].kids, null)
     && Placed(f[0].kids, f[0].id, null) && Placed(f[1..], p, tail))
  }

  lemma {:induction false} NodesConcat(f: Forest, g: Forest)
    ensures Nodes(f + g) == Nodes(f) + Nodes(g)
  {
    if f == [] {
      assert f + g == g;
    } else {
      assert (f + g)[1..] == f[1..] + g;
      NodesConcat(f[1..], g);
    }
  }

  lemma {:induction false} DistinctConcat(f: Forest, g: Forest)
    ensures Distinct(f + g) <==> Distinct(f) && Distinct(g) && Nodes(f) !! Nodes(g)
  {
    if f == [] {
      assert f + g == g;
    } else {
      assert (f + g)[1..] == f[1..] + g;
      NodesConcat(f[1..], g);
      DistinctConcat(f[1..], g);
    }
  }

  lemma {:induction false} PlacedConcat(f: Forest, g: Forest, p: Menu?, tail: Menu?)
    ensures Placed(f + g, p, tail) <==> Placed(f, p, First(g, tail)) && Placed(g, p, tail)
  {
    if f == [] {
      assert f + g == g;
    } else {
      assert (f + g)[1..] == f[1..] + g;
      PlacedConcat(f[1..], g, p, tail);
    }
  }

  ghost predicate NoDuplicates(s: seq<Menu>) {
    s == [] || (s[0] !in s[1..] && NoDuplicates(s[1..]))
  }

  lemma {:induction false} NoDuplicatesConcat(a: seq<Menu>, b: seq<Menu>)
    ensures NoDuplicates(a + b) <==> NoDuplicates(a) && NoDuplicates(b) && forall m :: m in a ==> m !in b
  {
    if a == [] {
      assert a + b == b;
    } else {
      assert (a + b)[0] == a[0] && (a + b)[1..] == a[1..] + b;
      NoDuplicatesConcat(a[1..], b);
      assert forall m :: m in a <==> m == a[0] || m in a[1..];
    }
  }

  ghost function Members(s: seq<Menu>): set<Menu> {
    set m | m in s
  }

  lemma {:induction false} NodesOfPreorder(f: Forest)
    ensures Nodes(f) == Members(Preorder(f))
  {
    if f != [] {
      NodesOfPreorder(f[0].kids);
      NodesOfPreorder(f[1..]);
      assert Preorder(f) == [f[0].id] + Preorder(f[0].kids) + Preorder(f[1..]);
    }
  }

  lemma {:induction false} DistinctByPreorder(f: Forest)
    ensures Distinct(f) <==> NoDuplicates(Preorder(f))
  {
    if f != [] {
      var a, b := Preorder(f[0].kids), Preorder(f[1..]);
      NodesOfPreorder(f[0].kids);
      NodesOfPreorder(f[1..]);
      DistinctByPreorder(f[0].kids);
      DistinctByPreorder(f[1..]);
      assert Preorder(f) == [f[0].id] + (a + b);
      NoDuplicatesConcat([f[0].id], a + b);
      NoDuplicatesConcat(a, b);
      assert forall m :: m in a <==> m in Members(a);
      assert forall m :: m in b <==> m in Members(b);
    }
  }

  /** Forests with the same preorder have the same entries. */
  lemma SamePreorder(f: Forest, g: Forest)
    requires Preorder(f) == Preorder(g)
    ensures Nodes(f) == Nodes(g) && (Distinct(f) <==> Distinct(g))
  {
    NodesOfPreorder(f);
    NodesOfPreorder(g);
    DistinctByPreorder(f);
    DistinctByPreorder(g);
  }

  // ---------- steps that are used by several loops ----------

  /** The first of some siblings, split off. */
  lemma FirstOf(f: Forest, p: Menu?, tail: Menu?)
    requires f != []
    ensures f == [f[0]] + f[1..]
    ensures Nodes([f[0]]) == {f[0].id} + Nodes(f[0].kids)
    ensures Placed(f, p, tail) <==> Placed([f[0]], p, First(f[1..], tail)) && Placed(f[1..], p, tail)
  {
    assert f == [f[0]] + f[1..];
    PlacedConcat([f[0]], f[1..], p, tail);
  }

  lemma {:induction false} InheritAllConcat(parentDep: Option<Expr>, f: Forest, g: Forest)
    ensures InheritAll(parentDep, f + g) == InheritAll(parentDep, f) + InheritAll(parentDep, g)
  {
    hide InheritEntry;
    if f == [] {
      assert f + g == g;
    } else {
      assert (f + g)[1..] == f[1..] + g;
      InheritAllConcat(parentDep, f[1..], g);
    }
  }

  lemma {:induction false} AllSelectsConcat(f: Forest, g: Forest)
    ensures AllSelects(f + g) == AllSelects(f) + AllSelects(g)
  {
    hide Selects;
    if f == [] {
      assert f + g == g;
    } else {
      assert (f + g)[1..] == f[1..] + g;
      AllSelectsConcat(f[1..], g);
    }
  }

  function Inherited(parentDep: Option<Expr>, x: Tree<Menu>): Tree<Menu> {
    x.(entry := InheritEntry(parentDep, x.entry))
  }

  lemma InheritAllGrows(parentDep: Option<Expr>, f: Forest, x: Tree<Menu>)
    ensures InheritAll(parentDep, f + [x]) == InheritAll(parentDep, f) + [Inherited(parentDep, x)]
    ensures var x' := Inherited(parentDep, x);
            AllSelects(InheritAll(parentDep, f + [x]))
            == AllSelects(InheritAll(parentDep, f)) + Selects(x'.entry, x'.entry.props)
  {
    var x' := Inherited(parentDep, x);
    InheritAllConcat(parentDep, f, [x]);
    assert InheritAll(parentDep, [x]) == [x'];
    AllSelectsConcat(InheritAll(parentDep, f), [x']);
    assert AllSelects([x']) == Selects(x'.entry, x'.entry.props) + AllSelects<Menu>([]);
  }

  /** The first loop of menu_finalize: the children inherit the condition of their parent. */
  method InheritLoop(first: Menu?, parentDep: Option<Expr>, ghost f: Forest, ghost p: Menu?)
    returns (log: seq<Event<Menu>>)
    requires Placed(f, p, null) && Distinct(f) && first == First(f, null)
    modifies Nodes(f)
    ensures Placed(InheritAll(parentDep, f), p, null) && log == AllSelects(InheritAll(parentDep, f))
  {
    hide InheritAll, AllSelects, Selects, InheritEntry, Placed, Distinct, Nodes;
    log := [];
    var menu := first;
    ghost var i := 0;
    AllExist(f);
    NothingInherited(parentDep, f, p, menu);
    while menu != null
      invariant 0 <= i <= |f| && menu == (if i < |f| then f[i].id else null)
      invariant Placed(InheritAll(parentDep, f[..i]), p, menu) && Placed(f[i..], p, null)
      invariant log == AllSelects(InheritAll(parentDep, f[..i]))
      decreases |f| - i
    {
      ApartAt(f, i);
      InheritingKeepsNodes(parentDep, f[..i]);
      ghost var was := menu;
      var more;
      menu, more := InheritStep(menu, parentDep, f[i..], p);
      assert Placed(InheritAll(parentDep, f[..i]), p, was);
      InheritAllGrows(parentDep, f[..i], f[i]);
      assert f[..i] + [f[i]] == f[..i + 1];
      PlacedConcat(InheritAll(parentDep, f[..i]), [Inherited(parentDep, f[i])], p, menu);
      log := log + more;
      i := i + 1;
    }
    assert f[..|f|] == f;
  }

  lemma NothingInherited(parentDep: Option<Expr>, f: Forest, p: Menu?, menu: Menu?)
    ensures f[0..] == f && Placed(InheritAll(parentDep, f[..0]), p, menu) &&
            AllSelects(InheritAll(parentDep, f[..0])) == []
  {
    assert f[..0] == [];
  }

  method InheritStep(menu: Menu, parentDep: Option<Expr>, ghost f: Forest, ghost p: Menu?)
    returns (next: Menu?, log: seq<Event<Menu>>)
    requires f != [] && f[0].id == menu && Placed(f, p, null) && Distinct(f)
    modifies menu
    ensures next == First(f[1..], null)
    ensures Placed([Inherited(parentDep, f[0])], p, next) && Placed(f[1..], p, null)
    ensures var x' := Inherited(parentDep, f[0]); log == Selects(x'.entry, x'.entry.props)
  {
    AllExist(f[0].kids);
    AllExist(f[1..]);
    assert Placed(f[0].kids, menu, null) && Placed(f[1..], p, null);
    assert menu !in Nodes(f[0].kids) && menu !in Nodes(f[1..]);
    log := InheritProperties(menu, parentDep);
    assert Placed(f[0].kids, menu, null) && Placed(f[1..], p, null);
    next := menu.next;
  }

  /** The body of the loop over the children: the condition of the entry, and then those of its properties one after
      the other. */
  method InheritProperties(menu: Menu, parentDep: Option<Expr>) returns (log: seq<Event<Menu>>)
    modifies menu
    ensures menu.next == old(menu.next) && menu.parent == old(menu.parent) && menu.list == old(menu.list)
    ensures menu.entry == InheritEntry(parentDep, old(menu.entry))
    ensures log == Selects(menu.entry, menu.entry.props)
  {
    hide Inherit, InheritPrompt, KeepsMod, Selects, InheritProps;
    ghost var was := menu.entry;
    var base := Inherit(parentDep, menu.entry.dep);
    var tristate := KeepsMod(menu.entry);
    menu.entry := menu.entry.(dep := base);
    if menu.entry.prompt.Some? {
      var prompt := menu.entry.prompt.value;
      menu.entry := menu.entry.(prompt := Some(prompt.(visible := InheritPrompt(base, prompt.visible, tristate))));
    }
    ghost var heading := menu.entry;
    NoPropsYet(menu.entry, base, was.props, tristate);
    log := [];
    for i := 0 to |menu.entry.props|
      invariant menu.entry == heading.(props := InheritProps(base, was.props[..i], tristate) + was.props[i..])
      invariant menu.next == old(menu.next) && menu.parent == old(menu.parent) && menu.list == old(menu.list)
      invariant |menu.entry.props| == |was.props| && |InheritProps(base, was.props[..i], tristate)| == i
      invariant log == Selects(heading, InheritProps(base, was.props[..i], tristate))
    {
      ghost var done := InheritProps(base, was.props[..i], tristate);
      InheritPropsGrow(base, was.props, i, tristate);
      var prop := menu.entry.props[i];
      prop := prop.(visible := InheritPrompt(base, prop.visible, tristate));
      menu.entry := menu.entry.(props := menu.entry.props[i := prop]);
      if prop.select.Some? {
        log := log + [AddRevDep(prop.select.value, menu.entry.sym, prop.visible)];
      }
      SelectsGrow(heading, done, prop);
      AssignNext(done, was.props, i, prop);
    }
    assert was.props[..|was.props|] == was.props && was.props[|was.props|..] == [];
    assert InheritProps(base, was.props, tristate) + [] == InheritProps(base, was.props, tristate);
    SameSelects(heading, menu.entry, menu.entry.props);
  }

  lemma AssignNext<T>(done: seq<T>, all: seq<T>, i: nat, x: T)
    requires i < |all| && |done| == i
    ensures (done + all[i..])[i := x] == done + [x] + all[i + 1..]
  {
  }

  lemma NoPropsYet(e: Entry, base: Option<Expr>, ps: seq<PropInfo>, tristate: bool)
    ensures InheritProps(base, ps[..0], tristate) == [] && ps[0..] == ps && Selects<Menu>(e, []) == []
    ensures [] + ps == ps
  {
  }

  lemma {:induction false} InheritPropsGrow(base: Option<Expr>, ps: seq<PropInfo>, i: nat, tristate: bool)
    requires i < |ps|
    ensures |InheritProps(base, ps[..i], tristate)| == i
    ensures InheritProps(base, ps[..i + 1], tristate)
         == InheritProps(base, ps[..i], tristate) + [ps[i].(visible := InheritPrompt(base, ps[i].visible, tristate))]
  {
    if i > 0 {
      InheritPropsGrow(base, ps[1..], i - 1, tristate);
      assert ps[..i][1..] == ps[1..][..i - 1] && ps[..i + 1][1..] == ps[1..][..i];
    } else {
      assert ps[..1][1..] == [];
    }
  }

  lemma {:induction false} SelectsGrow(e: Entry, ps: seq<PropInfo>, p: PropInfo)
    ensures Selects<Menu>(e, ps + [p])
         == Selects<Menu>(e, ps) + (if p.select.Some? then [AddRevDep(p.select.value, e.sym, p.visible)] else [])
  {
    if ps == [] {
      assert [] + [p] == [p] && [p][1..] == [];
    } else {
      assert (ps + [p])[1..] == ps[1..] + [p];
      SelectsGrow(e, ps[1..], p);
    }
  }

  /** Only the symbol of the entry counts. */
  lemma {:induction false} SameSelects(e: Entry, e': Entry, ps: seq<PropInfo>)
    requires e.sym == e'.sym
    ensures Selects<Menu>(e, ps) == Selects<Menu>(e', ps)
  {
    if ps != [] {
      SameSelects(e, e', ps[1..]);
    }
  }

  lemma {:induction false} InheritingKeepsNodes(parentDep: Option<Expr>, f: Forest)
    ensures Nodes(InheritAll(parentDep, f)) == Nodes(f)
  {
    if f != [] {
      InheritingKeepsNodes(parentDep, f[1..]);
    }
  }

  lemma PlacedStep(f: Forest, i: nat, p: Menu?, tail: Menu?)
    requires i < |f|
    ensures Placed(f[..i + 1], p, tail) <==> Placed(f[..i], p, f[i].id) && Placed([f[i]], p, tail)
  {
    assert f[..i + 1] == f[..i] + [f[i]];
    PlacedConcat(f[..i], [f[i]], p, tail);
  }

  /** The siblings before, the next one and those after it share no entries. */
  lemma ApartAt(f: Forest, i: nat)
    requires Distinct(f) && i < |f|
    ensures Nodes(f[..i]) !! Nodes(f[i..]) && f[i].id !in Nodes(f[..i]) && f[i].id in Nodes(f)
    ensures Distinct(f[i..]) && Nodes(f[i..]) <= Nodes(f) && Nodes(f[..i]) <= Nodes(f) && f[i..][0] == f[i] &&
            f[i..][1..] == f[i + 1..]
  {
    assert f == f[..i] + f[i..];
    DistinctConcat(f[..i], f[i..]);
    NodesConcat(f[..i], f[i..]);
    assert f[i..][0] == f[i];
  }

  /** Siblings already done, the next one and the rest share no entries. */
  lemma Apart(done: Forest, rest: Forest)
    requires Distinct(done + rest) && rest != []
    ensures Nodes(done) !! Nodes(rest) && Distinct(rest) && Distinct(done)
    ensures Nodes([rest[0]]) !! Nodes(rest[1..]) && rest[0].id in Nodes(rest) && rest[0].id !in Nodes(rest[0].kids)
    ensures Nodes(rest) == Nodes([rest[0]]) + Nodes(rest[1..])
    ensures Nodes(done + rest) == Nodes(done) + Nodes(rest)
  {
    DistinctConcat(done, rest);
    NodesConcat(done, rest);
    assert Nodes([rest[0]]) == {rest[0].id} + Nodes(rest[0].kids);
  }

  // ---------- relinking ----------

  function Last(f: Forest): Menu
    requires f != []
  {
    f[|f| - 1].id
  }

  lemma {:induction false} LastIsNode(f: Forest)
    requires f != []
    ensures Last(f) in Nodes(f)
  {
    if |f| > 1 {
      LastIsNode(f[1..]);
    }
  }

  /** Assigning to `next` of the last sibling changes what follows them, and nothing else. */
  method SetTail(last: Menu, tail: Menu?, ghost f: Forest, ghost p: Menu?, ghost before: Menu?)
    requires f != [] && last == Last(f) && Placed(f, p, before) && Distinct(f)
    modifies last`next
    ensures Placed(f, p, tail) && last.next == tail
  {
    ghost var n := |f| - 1;
    ApartAt(f, n);
    assert f[..n + 1] == f && f[n..] == [f[n]];
    PlacedStep(f, n, p, before);
    last.next := tail;
    assert Placed(f[..n], p, last);
    PlacedOne(f[n], p, tail);
    PlacedStep(f, n, p, tail);
  }

  lemma PlacedOne(x: Tree<Menu>, p: Menu?, tail: Menu?)
    ensures Placed([x], p, tail) <==>
              && x.id.entry == x.entry && x.id.parent == p && x.id.next == tail && x.id.list == First(x.kids, null)
              && Placed(x.kids, x.id, null)
  {
    assert [x][1..] == [];
  }

  /** The loop that gives the children of an entry a new parent, up to the last of them. */
  method Reparent(first: Menu, parent: Menu, ghost f: Forest, ghost p: Menu?) returns (lastMenu: Menu)
    requires f != [] && first == f[0].id && Placed(f, p, null) && Distinct(f)
    modifies Nodes(f)
    ensures Placed(f, parent, null) && lastMenu == Last(f)
  {
    lastMenu := first;
    ghost var i := 0;
    AllExist(f);
    assert f[0..] == f && Placed(f[..0], parent, lastMenu);
    hide Placed, Distinct, Nodes;
    while true
      invariant 0 <= i < |f| && lastMenu == f[i].id
      invariant Placed(f[..i], parent, lastMenu) && Placed(f[i..], p, null)
      decreases |f| - i
    {
      ApartAt(f, i);
      var next := MoveOne(lastMenu, parent, f[i..], p);
      PlacedStep(f, i, parent, next);
      i := i + 1;
      if next == null {
        break;
      }
      lastMenu := next;
    }
    assert f[..|f|] == f;
  }

  method MoveOne(menu: Menu, parent: Menu, ghost f: Forest, ghost p: Menu?) returns (next: Menu?)
    requires f != [] && f[0].id == menu && Placed(f, p, null) && Distinct(f)
    modifies menu`parent
    ensures next == First(f[1..], null)
    ensures Placed([f[0]], parent, next) && Placed(f[1..], p, null)
  {
    menu.parent := parent;
    next := menu.next;
  }

  // ---------- hoisting ----------

  /** What Hoist does with its first entry. */
  function Bared(x: Tree<Menu>): Tree<Menu> {
    if x.kids != [] && !HasText(x.entry) then x.(kids := []) else x
  }

  function Onwards(f: Forest): Forest
    requires f != []
  {
    if f[0].kids != [] && !HasText(f[0].entry) then f[0].kids + f[1..] else f[1..]
  }

  lemma HoistStep(g: Forest, i: nat, r: Forest)
    requires i <= |g| && g[i..] == Hoist(r)
    ensures r == [] <==> i == |g|
    ensures r != [] ==> g[i] == Bared(r[0]) && g[i + 1..] == Hoist(Onwards(r)) && Count(Onwards(r)) < Count(r)
  {
    if r != [] {
      CountConcat(r[0].kids, r[1..]);
      assert Hoist(r) == [Bared(r[0])] + Hoist(Onwards(r));
      assert g[i + 1..] == g[i..][1..];
    }
  }

  /** What is left to look at is apart from what has been done. */
  lemma HoistApart(f: Forest, g: Forest, i: nat, r: Forest)
    requires Distinct(f) && g == Hoist(f) && i < |g| && g[i..] == Hoist(r) && r != []
    ensures Distinct(r) && Nodes(g[..i]) !! Nodes(r) && Nodes(r) <= Nodes(f) && Nodes(g[..i]) <= Nodes(f)
    ensures Nodes([r[0]]) <= Nodes(r)
  {
    assert Nodes([r[0]]) == {r[0].id} + Nodes(r[0].kids);
    HoistKeepsOrder(f);
    SamePreorder(f, g);
    HoistKeepsOrder(r);
    SamePreorder(r, Hoist(r));
    ApartAt(g, i);
  }

  lemma FirstIsApart(r: Forest)
    requires r != [] && Distinct(r)
    ensures var x, rest := r[0], r[1..];
            && Distinct(x.kids) && Distinct(rest) && Nodes(x.kids) !! Nodes(rest)
            && x.id !in Nodes(x.kids) && x.id !in Nodes(rest)
            && Nodes(x.kids) <= Nodes(r) && Nodes(rest) <= Nodes(r) && Nodes([x]) == {x.id} + Nodes(x.kids)
  {
  }

  /** The children of an entry take their place after it. */
  method HoistOne(menu: Menu, parent: Menu, ghost r: Forest)
    requires r != [] && r[0].id == menu && r[0].kids != [] && Placed(r, parent, null) && Distinct(r)
    modifies Nodes([r[0]])
    ensures Placed([r[0].(kids := [])], parent, menu.next) && menu.next == r[0].kids[0].id
    ensures Placed(r[0].kids + r[1..], parent, null)
  {
    hide Placed, Distinct, Nodes;
    ghost var x, rest := r[0], r[1..];
    AllExist(r);
    FirstOf(r, parent, null);
    PlacedOne(x, parent, First(rest, null));
    FirstIsApart(r);
    LastIsNode(x.kids);
    var lastMenu := Reparent(menu.list, parent, x.kids, menu);
    assert Placed(rest, parent, null);
    SetTail(lastMenu, menu.next, x.kids, parent, null);
    assert Placed(rest, parent, null);
    menu.next := menu.list;
    menu.list := null;
    assert Placed(rest, parent, null) && Placed(x.kids, parent, First(rest, null));
    PlacedConcat(x.kids, rest, parent, null);
    PlacedNothing(menu, null);
    PlacedOne(x.(kids := []), parent, x.kids[0].id);
  }

  /** The last loop of menu_finalize: entries without a prompt text give up their children. */
  method HoistLoop(parent: Menu, ghost f: Forest)
    requires Placed(f, parent, null) && Distinct(f) && parent.list == First(f, null) && parent !in Nodes(f)
    modifies Nodes(f)
    ensures Placed(Hoist(f), parent, null)
  {
    var menu := parent.list;
    ghost var g, i, r := Hoist(f), 0, f;
    assert g[..0] == [] && g[0..] == g;
    assert Placed(g[..0], parent, menu);
    AllExist(f);
    HoistStep(g, 0, f);
    hide Placed, Distinct, Nodes, Hoist, Onwards, Count;
    while menu != null
      invariant i <= |g| && g[i..] == Hoist(r) && menu == First(r, null)
      invariant Placed(g[..i], parent, menu) && Placed(r, parent, null)
      decreases Count(r)
    {
      HoistStep(g, i, r);
      HoistApart(f, g, i, r);
      menu := HoistEntry(menu, parent, r);
      assert Placed(g[..i], parent, r[0].id);
      PlacedStep(g, i, parent, menu);
      i, r := i + 1, Onwards(r);
    }
    HoistStep(g, i, r);
    assert g[..i] == g;
  }

  /** The body of the loop. */
  method HoistEntry(menu: Menu, parent: Menu, ghost r: Forest) returns (next: Menu?)
    requires r != [] && r[0].id == menu && Placed(r, parent, null) && Distinct(r)
    modifies Nodes([r[0]])
    ensures next == First(Onwards(r), null)
    ensures Placed([Bared(r[0])], parent, next) && Placed(Onwards(r), parent, null)
  {
    FirstOf(r, parent, null);
    PlacedOne(r[0], parent, First(r[1..], null));
    if menu.list != null && (menu.entry.prompt == None || !menu.entry.prompt.value.text) {
      HoistOne(menu, parent, r);
    }
    next := menu.next;
  }

  // ---------- menu_finalize ----------

  lemma FinalizeKeepsFirst(t: Tree<Menu>, rest: Forest)
    ensures Finalize(t, rest).0.id == t.id && Finalize(t, rest).0.entry == t.entry
  {
  }

  /** One round of the loop over the children. */
  lemma FinalizeAllStep(g: Forest, i: nat, r: Forest)
    requires i <= |g| && g[i..] == FinalizeAll(r).0
    ensures r == [] <==> i == |g|
    ensures r != [] ==>
              var (t, rest, log) := Finalize(r[0], r[1..]);
              && g[i] == t && t.id == r[0].id && g[i + 1..] == FinalizeAll(rest).0
              && FinalizeAll(r).1 == log + FinalizeAll(rest).1
              && Count(r) == 1 + Count(r[0].kids) + Count(r[1..]) && Count(rest) < Count(r)
    ensures r == [] ==> FinalizeAll(r).1 == []
  {
    if r != [] {
      FinalizeKeepsFirst(r[0], r[1..]);
      assert g[i + 1..] == g[i..][1..];
    }
  }

  lemma FinalizeAllApart(f: Forest, g: Forest, i: nat, r: Forest)
    requires Distinct(f) && g == FinalizeAll(f).0 && i < |g| && g[i..] == FinalizeAll(r).0 && r != []
    ensures Distinct(r) && Nodes(g[..i]) !! Nodes(r) && Nodes(r) <= Nodes(f) && Nodes(g[..i]) <= Nodes(f)
    ensures r == [r[0]] + r[1..] && r[0].id in Nodes(r)
    ensures var (t, rest, _) := Finalize(r[0], r[1..]); Distinct([t] + rest) && Nodes([t] + rest) == Nodes(r)
  {
    hide Finalize, FinalizeAll, Nodes, Distinct, Preorder, Count;
    FinalizeAllKeepsOrder(f);
    SamePreorder(f, g);
    FinalizeAllKeepsOrder(r);
    SamePreorder(r, g[i..]);
    ApartAt(g, i);
    AtHead(r);
    var (t, rest, _) := Finalize(r[0], r[1..]);
    assert r == [r[0]] + r[1..];
    FinalizeKeepsOrder(r[0], r[1..]);
    SamePreorder(r, [t] + rest);
  }

  /** The loop over the children of an entry. */
  method FinalizeLoop(first: Menu?, ghost f: Forest, ghost p: Menu?) returns (log: seq<Event<Menu>>)
    requires Placed(f, p, null) && Distinct(f) && first == First(f, null)
    modifies Nodes(f)
    ensures Placed(FinalizeAll(f).0, p, null) && log == FinalizeAll(f).1
    decreases Count(f), 2
  {
    hide Placed, Distinct, Nodes, Finalize, FinalizeAll, Count;
    log := [];
    var menu := first;
    ghost var g, i, r := FinalizeAll(f).0, 0, f;
    AllExist(f);
    assert g[..0] == [] && g[0..] == g;
    PlacedNothing(p, menu);
    FinalizeAllStep(g, 0, f);
    while menu != null
      invariant i <= |g| && g[i..] == FinalizeAll(r).0 && menu == First(r, null)
      invariant Placed(g[..i], p, menu) && Placed(r, p, null)
      invariant FinalizeAll(f).1 == log + FinalizeAll(r).1
      invariant Count(r) <= Count(f)
      decreases Count(r)
    {
      FinalizeAllStep(g, i, r);
      FinalizeAllApart(f, g, i, r);
      ghost var (t, rest, _) := Finalize(r[0], r[1..]);
      var more := MenuFinalize(menu, r[0], r[1..], p);
      assert Placed(g[..i], p, menu);
      FirstOf([t] + rest, p, null);
      PlacedOne(t, p, First(rest, null));
      assert ([t] + rest)[1..] == rest;
      menu := menu.next;
      PlacedStep(g, i, p, menu);
      log := log + more;
      i, r := i + 1, rest;
    }
    FinalizeAllStep(g, i, r);
    assert g[..i] == g;
  }

  lemma PlacedNothing(p: Menu?, tail: Menu?)
    ensures Placed([], p, tail)
  {
  }

  /** One round of the loop over the following siblings. */
  lemma AbsorbStep(e: Entry, kids: Forest, i: nat, r: Forest)
    requires e.sym.Some? && i <= |kids| && kids[i..] == Absorb(e, r).0
    ensures r == [] || !Follows(e, r[0].entry) ==> i == |kids| && Absorb(e, r).1 == r && Absorb(e, r).2 == []
    ensures r != [] && Follows(e, r[0].entry) ==>
              var (t, rest, log) := Finalize(r[0], r[1..]);
              && i < |kids| && kids[i] == t && t.id == r[0].id && kids[i + 1..] == Absorb(e, rest).0
              && Absorb(e, r).1 == Absorb(e, rest).1 && Absorb(e, r).2 == log + Absorb(e, rest).2
              && Count(r) == 1 + Count(r[0].kids) + Count(r[1..]) && Count(rest) < Count(r)
  {
    if r != [] && Follows(e, r[0].entry) {
      FinalizeKeepsFirst(r[0], r[1..]);
      assert kids[i + 1..] == kids[i..][1..];
    }
  }

  lemma AbsorbKeepsNodes(e: Entry, f: Forest)
    requires e.sym.Some? && Distinct(f)
    ensures var (kids, rest, _) := Absorb(e, f);
            Distinct(kids) && Distinct(rest) && Nodes(kids) !! Nodes(rest) && Nodes(kids) + Nodes(rest) == Nodes(f)
  {
    var (kids, rest, _) := Absorb(e, f);
    AbsorbKeepsOrder(e, f);
    CountConcat(kids, rest);
    SamePreorder(kids + rest, f);
    DistinctConcat(kids, rest);
    NodesConcat(kids, rest);
  }

  lemma AtHead(r: Forest)
    requires r != []
    ensures r == [r[0]] + r[1..] && r[0].id in Nodes(r)
  {
  }

  lemma AbsorbApart(e: Entry, f: Forest, kids: Forest, i: nat, r: Forest)
    requires e.sym.Some? && Distinct(f) && kids == Absorb(e, f).0 && Absorb(e, r).1 == Absorb(e, f).1
    requires i < |kids| && kids[i..] == Absorb(e, r).0 && r != []
    ensures Distinct(r) && Nodes(kids[..i]) !! Nodes(r) && Nodes(r) <= Nodes(f) && Nodes(kids[..i]) <= Nodes(f)
    ensures r == [r[0]] + r[1..] && r[0].id in Nodes(r)
    ensures var (t, rest, _) := Finalize(r[0], r[1..]); Distinct([t] + rest) && Nodes([t] + rest) == Nodes(r)
  {
    hide Finalize, Absorb, Nodes, Distinct, Preorder, Count;
    var left := Absorb(e, f).1;
    AbsorbKeepsNodes(e, f);
    AtHead(r);
    DistinctConcat(kids, left);
    ApartAt(kids, i);
    DistinctConcat(kids[i..], left);
    NodesConcat(kids[i..], left);
    AbsorbKeepsOrder(e, r);
    CountConcat(kids[i..], left);
    SamePreorder(r, kids[i..] + left);
    var (t, rest, _) := Finalize(r[0], r[1..]);
    assert r == [r[0]] + r[1..];
    FinalizeKeepsOrder(r[0], r[1..]);
    SamePreorder(r, [t] + rest);
  }

  /** The loop over the siblings that follow an entry: as long as they depend on it, they are finalized
      and get it as their parent. They stay linked to what follows them. */
  method AbsorbLoop(parent: Menu, ghost f: Forest, ghost p: Menu?) returns (lastMenu: Menu?, log: seq<Event<Menu>>)
    requires Placed(f, p, null) && Distinct(f) && parent.next == First(f, null) && parent !in Nodes(f)
    requires parent.entry.sym.Some?
    modifies Nodes(f)
    ensures var (kids, rest, log') := Absorb(parent.entry, f);
            && Placed(kids, parent, First(rest, null)) && Placed(rest, p, null) && log == log'
            && lastMenu == if kids == [] then null else Last(kids)
    decreases Count(f), 2
  {
    hide Placed, Distinct, Nodes, Finalize, Absorb, Count, Follows;
    log := [];
    lastMenu := null;
    var e := parent.entry;
    var menu := parent.next;
    ghost var kids, left, i, r := Absorb(e, f).0, Absorb(e, f).1, 0, f;
    AllExist(f);
    assert kids[..0] == [] && kids[0..] == kids;
    PlacedNothing(parent, menu);
    while menu != null && Follows(e, menu.entry)
      invariant i <= |kids| && kids[i..] == Absorb(e, r).0 && Absorb(e, r).1 == left && menu == First(r, null)
      invariant Placed(kids[..i], parent, menu) && Placed(r, p, null)
      invariant Absorb(e, f).2 == log + Absorb(e, r).2
      invariant lastMenu == if i == 0 then null else kids[i - 1].id
      invariant Count(r) <= Count(f)
      decreases Count(r)
    {
      EntryOf(r, p);
      AbsorbStep(e, kids, i, r);
      AbsorbApart(e, f, kids, i, r);
      ghost var (t, rest, _) := Finalize(r[0], r[1..]);
      var more := MenuFinalize(menu, r[0], r[1..], p);
      assert Placed(kids[..i], parent, menu);
      assert ([t] + rest)[1..] == rest;
      lastMenu := menu;
      menu := MoveOne(menu, parent, [t] + rest, p);
      assert Placed(kids[..i], parent, lastMenu);
      PlacedStep(kids, i, parent, menu);
      log := log + more;
      i, r := i + 1, rest;
    }
    if menu != null {
      EntryOf(r, p);
    }
    AbsorbStep(e, kids, i, r);
    assert kids[..i] == kids;
  }

  lemma EntryOf(r: Forest, p: Menu?)
    requires r != [] && Placed(r, p, null)
    ensures r[0].id.entry == r[0].entry
  {
  }

  lemma FinalizeKidsKeepsNodes(t: Tree<Menu>)
    requires t.kids != []
    ensures var below := InheritAll(ParentDep(t.entry), t.kids);
            var kids := FinalizeAll(below).0;
            && Nodes(below) == Nodes(t.kids) && Nodes(kids) == Nodes(t.kids) && Count(below) == Count(t.kids)
            && (Distinct(t.kids) ==> Distinct(below) && Distinct(kids))
            && First(below, null) == First(t.kids, null) && First(kids, null) == First(t.kids, null)
  {
    var below := InheritAll(ParentDep(t.entry), t.kids);
    InheritingKeepsShape(ParentDep(t.entry), t.kids);
    SamePreorder(below, t.kids);
    FinalizeAllKeepsOrder(below);
    SamePreorder(FinalizeAll(below).0, below);
    FinalizeKeepsFirst(below[0], below[1..]);
  }

  lemma HoistKeepsNodes(f: Forest)
    ensures Nodes(Hoist(f)) == Nodes(f) && (f != [] ==> First(Hoist(f), null) == First(f, null)) &&
            (f == [] ==> Hoist(f) == [])
  {
    HoistKeepsOrder(f);
    SamePreorder(Hoist(f), f);
  }

  /** menu_finalize on an entry and the siblings after it: the links then represent what Finalize
      makes of the trees they represented before. */
  method MenuFinalize(menu: Menu, ghost t: Tree<Menu>, ghost rest: Forest, ghost p: Menu?)
    returns (log: seq<Event<Menu>>)
    requires t.id == menu && Placed([t] + rest, p, null) && Distinct([t] + rest)
    modifies Nodes([t] + rest)
    ensures log == Finalize(t, rest).2
    ensures Placed([Finalize(t, rest).0] + Finalize(t, rest).1, p, null)
    decreases 1 + Count(t.kids) + Count(rest), 1
  {
    hide Placed, Distinct, Nodes, Finalize, FinalizeAll, Absorb, Hoist, Count, InheritAll, AllSelects;
    Opened(t, rest, p);
    if menu.list != null {
      log := FinalizeBelow(menu, t, rest, p);
    } else if menu.entry.sym.Some? {
      log := FinalizeAfter(menu, t, rest, p);
    } else {
      FinalizeAlone(t, rest);
      log := [Enter(menu)];
    }
  }

  lemma Opened(t: Tree<Menu>, rest: Forest, p: Menu?)
    requires Placed([t] + rest, p, null) && Distinct([t] + rest)
    ensures t.id.entry == t.entry && t.id.parent == p && t.id.next == First(rest, null) &&
            t.id.list == First(t.kids, null)
    ensures Placed(t.kids, t.id, null) && Placed(rest, p, null)
    ensures t.id !in Nodes(t.kids) && t.id !in Nodes(rest) && Nodes(t.kids) !! Nodes(rest)
    ensures Distinct(t.kids) && Distinct(rest) && Nodes([t] + rest) == {t.id} + Nodes(t.kids) + Nodes(rest)
  {
    assert ([t] + rest)[1..] == rest;
  }

  lemma Closed(t: Tree<Menu>, rest: Forest, p: Menu?)
    requires t.id.entry == t.entry && t.id.parent == p && t.id.next == First(rest, null) &&
             t.id.list == First(t.kids, null)
    requires Placed(t.kids, t.id, null) && Placed(rest, p, null)
    ensures Placed([t] + rest, p, null)
  {
    assert ([t] + rest)[1..] == rest;
  }

  /** The case of an entry with children. */
  method FinalizeBelow(menu: Menu, ghost t: Tree<Menu>, ghost rest: Forest, ghost p: Menu?)
    returns (log: seq<Event<Menu>>)
    requires t.id == menu && t.kids != [] && Placed([t] + rest, p, null) && Distinct([t] + rest)
    modifies Nodes([t] + rest)
    ensures log == Finalize(t, rest).2
    ensures Placed([Finalize(t, rest).0] + Finalize(t, rest).1, p, null)
    decreases 1 + Count(t.kids) + Count(rest), 0
  {
    hide Placed, Distinct, Nodes, Finalize, FinalizeAll, Hoist, Count, InheritAll, AllSelects;
    Opened(t, rest, p);
    AllExist(t.kids);
    AllExist(rest);
    FinalizeWithKids(t, rest);
    FinalizeKidsKeepsNodes(t);
    ghost var below := InheritAll(ParentDep(t.entry), t.kids);
    ghost var kids := FinalizeAll(below).0;
    var selects := InheritLoop(menu.list, ParentDep(menu.entry), t.kids, menu);
    var more := FinalizeLoop(menu.list, below, menu);
    HoistLoop(menu, kids);
    HoistKeepsNodes(kids);
    log := [Enter(menu)] + selects + more;
    Closed(t.(kids := Hoist(kids)), rest, p);
  }

  lemma AbsorbFirst(e: Entry, f: Forest)
    requires e.sym.Some?
    ensures var (kids, rest, _) := Absorb(e, f);
            if kids == [] then rest == f else First(kids, null) == First(f, null)
  {
    if f != [] {
      FinalizeKeepsFirst(f[0], f[1..]);
    }
  }

  lemma {:induction false} LastNext(f: Forest, p: Menu?, tail: Menu?)
    requires f != [] && Placed(f, p, tail)
    ensures Last(f).next == tail
  {
    if |f| > 1 {
      LastNext(f[1..], p, tail);
    }
  }

  /** The case of a symbol without children: it takes in the siblings that depend on it. */
  method FinalizeAfter(menu: Menu, ghost t: Tree<Menu>, ghost rest: Forest, ghost p: Menu?)
    returns (log: seq<Event<Menu>>)
    requires t.id == menu && t.kids == [] && t.entry.sym.Some? && Placed([t] + rest, p, null) && Distinct([t] + rest)
    modifies Nodes([t] + rest)
    ensures log == Finalize(t, rest).2
    ensures Placed([Finalize(t, rest).0] + Finalize(t, rest).1, p, null)
    decreases 1 + Count(t.kids) + Count(rest), 0
  {
    hide Placed, Distinct, Nodes, Finalize, Absorb, Hoist, Count;
    Opened(t, rest, p);
    AllExist(rest);
    FinalizeWithSymbol(t, rest);
    AbsorbKeepsNodes(t.entry, rest);
    ghost var (kids, rest', _) := Absorb(t.entry, rest);
    AllExist(kids);
    AllExist(rest');
    AbsorbFirst(t.entry, rest);
    var lastMenu, more := AbsorbLoop(menu, rest, p);
    PlacedNothing(menu, null);
    if lastMenu != null {
      LastIsNode(kids);
      LastNext(kids, menu, First(rest', null));
      menu.list := menu.next;
      menu.next := lastMenu.next;
      assert Placed(kids, menu, First(rest', null)) && Placed(rest', p, null);
      SetTail(lastMenu, null, kids, menu, First(rest', null));
      assert Placed(rest', p, null);
    }
    HoistLoop(menu, kids);
    HoistKeepsNodes(kids);
    log := [Enter(menu)] + more + [AddDirDep(menu.entry.sym.value, menu.entry.dep)];
    Closed(t.(kids := Hoist(kids)), rest', p);
  }

  /** menu_finalize on the root. Whatever the entries say, they keep their order; each is finalized
      exactly once; the links are those of a tree; and below the root nothing hangs from an entry
      without a prompt text. */
  method FinalizeRoot(root: Menu, ghost t: Tree<Menu>) returns (log: seq<Event<Menu>>, ghost t': Tree<Menu>)
    requires t.id == root && Placed([t], null, null) && Distinct([t])
    modifies Nodes([t])
    ensures Placed([t'], null, null) && Distinct([t'])
    ensures t'.id == root && Preorder([t']) == Preorder([t])
    ensures Entered(log) == Preorder([t]) && NoDuplicates(Entered(log))
    ensures Prompted(t'.kids)
    ensures forall target: Symbol, s, d ::
              multiset(log)[AddRevDep(target, s, d)] == Selections(Entries(t'.kids), target, s, d)
    ensures t.kids != [] ==>
              forall s: Symbol, d ::
                multiset(log)[AddDirDep(s, d)] == Dependencies(Leaves(InheritAll(ParentDep(t.entry), t.kids)), s, d)
  {
    hide Placed, Distinct, Nodes, Finalize, Count, Entries, Leaves, InheritAll;
    assert [t] + [] == [t];
    log := MenuFinalize(root, t, [], null);
    t' := Finalize(t, []).0;
    FinalizeKeepsOrder(t, []);
    FinalizeKeepsFirst(t, []);
    FinalizeLeavesPrompted(t, []);
    NothingLeft(t);
    assert [t'] + [] == [t'];
    SamePreorder([t], [t']);
    DistinctByPreorder([t']);
    forall target: Symbol, s, d
      ensures multiset(log)[AddRevDep(target, s, d)] == Selections(Entries(t'.kids), target, s, d)
    {
      RevDepsAreSelects(t, target, s, d);
    }
    if t.kids != [] {
      forall s: Symbol, d
        ensures multiset(log)[AddDirDep(s, d)] == Dependencies(Leaves(InheritAll(ParentDep(t.entry), t.kids)), s, d)
      {
        DirDepsAreLeaves(t, s, d);
      }
    }
  }

  lemma NothingLeft(t: Tree<Menu>)
    ensures Finalize(t, []).1 == []
  {
  }

  // ---------- the walk without a stack ----------

  /** The entry p hangs in the tree such that after it and what is below it come the forests in up,
      from the inside out. */
  ghost predicate Above(p: Menu, up: seq<Forest>)
    reads *
    decreases up
  {
    p.next == First(if up == [] then [] else up[0], null) &&
    if up == [] then p.parent == null
    else p.parent != null && Placed(up[0], p.parent, null) && Above(p.parent, up[1..])
  }

  /** The entries still to be visited. */
  function Ahead(cur: Forest, up: seq<Forest>): seq<Menu>
    decreases up
  {
    Preorder(cur) + if up == [] then [] else Ahead(up[0], up[1..])
  }

  /** The loop of conf_write and conf_write_defconfig: it visits every entry below the root exactly
      once, in order, and comes to an end. */
  method Walk(root: Menu, ghost t: Tree<Menu>) returns (visited: seq<Menu>)
    requires t.id == root && Placed([t], null, null)
    ensures visited == Preorder(t.kids)
  {
    visited := [];
    PlacedOne(t, null, null);
    ghost var cur: Forest, up: seq<Forest>, p: Menu := t.kids, [], root;
    assert Above(p, up) && Ahead(cur, up) == Preorder(t.kids) && (cur == [] ==> Ahead(cur, up) == []);
    hide Ahead, Preorder, Placed;
    var menu := root.list;
    while menu != null
      invariant menu == First(cur, null) && Placed(cur, p, null) && Above(p, up)
      invariant visited + Ahead(cur, up) == Preorder(t.kids)
      invariant cur == [] ==> Ahead(cur, up) == []
      decreases |Ahead(cur, up)|
    {
      FirstOf(cur, p, null);
      PlacedOne(cur[0], p, First(cur[1..], null));
      AheadStep(cur, up);
      ghost var more := [cur[1..]] + up;
      assert more[0] == cur[1..] && more[1..] == up;
      Visiting(visited, menu, Ahead(cur[0].kids, more));
      Visiting(visited, menu, Ahead(cur[1..], up));
      visited := visited + [menu];
      if menu.list != null {
        p, up, cur := menu, more, cur[0].kids;
        menu := menu.list;
      } else if menu.next != null {
        cur := cur[1..];
        menu := menu.next;
      } else {
        menu, cur, up, p := Climb(menu, p, up);
      }
    }
  }

  lemma Visiting(visited: seq<Menu>, menu: Menu, ahead: seq<Menu>)
    ensures visited + ([menu] + ahead) == visited + [menu] + ahead
  {
  }

  ghost function Later(up: seq<Forest>): seq<Menu> {
    if up == [] then [] else Ahead(up[0], up[1..])
  }

  lemma AheadIs(cur: Forest, up: seq<Forest>)
    ensures Ahead(cur, up) == Preorder(cur) + Later(up)
  {
  }

  lemma LaterBelow(rest: Forest, up: seq<Forest>)
    ensures Later([rest] + up) == Ahead(rest, up)
  {
    assert ([rest] + up)[0] == rest && ([rest] + up)[1..] == up;
  }

  lemma Regroup(m: Menu, a: seq<Menu>, b: seq<Menu>, c: seq<Menu>)
    ensures [m] + a + b + c == [m] + (a + (b + c))
  {
  }

  lemma AheadStep(cur: Forest, up: seq<Forest>)
    requires cur != []
    ensures Ahead(cur, up) == [cur[0].id] + Ahead(cur[0].kids, [cur[1..]] + up)
    ensures cur[0].kids == [] ==> Ahead(cur, up) == [cur[0].id] + Ahead(cur[1..], up)
  {
    hide Ahead, Later;
    AheadIs(cur, up);
    AheadIs(cur[1..], up);
    LaterBelow(cur[1..], up);
    AheadIs(cur[0].kids, [cur[1..]] + up);
    Regroup(cur[0].id, Preorder(cur[0].kids), Preorder(cur[1..]), Later(up));
    AheadOfNothing([cur[1..]] + up);
  }

  lemma AheadOfNothing(up: seq<Forest>)
    ensures Ahead([], up) == Later(up)
  {
  }

  /** The inner loop: upwards to the first ancestor that something follows. */
  method Climb(from: Menu, ghost p: Menu, ghost up: seq<Forest>)
    returns (menu: Menu?, ghost cur': Forest, ghost up': seq<Forest>, ghost p': Menu)
    requires from.parent == p && Above(p, up)
    ensures menu == First(cur', null) && Placed(cur', p', null) && Above(p', up')
    ensures Ahead(cur', up') == Ahead([], up)
    ensures cur' == [] ==> Ahead(cur', up') == []
    ensures menu == if Ahead([], up) == [] then null else Ahead([], up)[0]
  {
    menu := from.parent;
    cur', up', p' := [], up, p;
    while menu != null
      invariant cur' == [] && (menu == null ==> up' == []) && (menu != null ==> menu == p')
      invariant Above(p', up') && Ahead([], up') == Ahead([], up)
      decreases |up'|, menu != null
    {
      if menu.next != null {
        menu, cur', up', p' := menu.next, up'[0], up'[1..], p'.parent;
        assert Ahead(cur', up') == Ahead([], up);
        return;
      }
      menu := menu.parent;
      if up' != [] {
        assert Ahead([], up') == Ahead(up'[0], up'[1..]) == Ahead([], up'[1..]);
        p', up' := menu, up'[1..];
      }
    }
  }
}
