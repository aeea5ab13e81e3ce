/** The search for recursive dependencies in support/kconfig/symbol.c: a depth-first search that marks
    symbols and keeps its path in a linked stack. */
module Cycles {
  import opened Tristates
  import opened Exprs
  import opened Configuration

  datatype PropType = Prompt | DefaultProp | RangeProp | SelectProp | ChoiceProp | OtherProp

  /** `struct property` */
  datatype Property = Property(ty: PropType, visible: Option<Expr>, expr: Option<Expr>)

  /** What the search looks at in a symbol. There are no choices. */
  datatype SymbolInfo = SymbolInfo(revDep: Option<Expr>, props: seq<Property>)

  type SymbolGraph = Symbol -> SymbolInfo

  // ---------- the dependency graph ----------

  /** The symbols found in a property: selects and choices are skipped, and beyond the condition only
      the value of a default counts. */
  function PropertySymbols(p: Property): set<Symbol> {
    if p.ty.ChoiceProp? || p.ty.SelectProp? then {}
    else SymbolsOpt(p.visible) + (if p.ty.DefaultProp? then SymbolsOpt(p.expr) else {})
  }

  function PropertiesSymbols(ps: seq<Property>): set<Symbol> {
    if ps == [] then {} else PropertySymbols(ps[0]) + PropertiesSymbols(ps[1..])
  }

  /** What a symbol depends on. */
  function Edges(x: SymbolInfo): set<Symbol> {
    SymbolsOpt(x.revDep) + PropertiesSymbols(x.props)
  }

  /** A symbol depends on those in the conditions of its selects, prompts, defaults and ranges, and on those its
      defaults are made of, but not on what it selects. */
  lemma EdgesExactly(x: SymbolInfo, t: Symbol)
    ensures t in Edges(x) <==>
              || t in SymbolsOpt(x.revDep)
              || (exists p :: p in x.props && !p.ty.SelectProp? && !p.ty.ChoiceProp? && t in SymbolsOpt(p.visible))
              || (exists p :: p in x.props && p.ty.DefaultProp? && t in SymbolsOpt(p.expr))
  {
    PropertiesSymbolsExactly(x.props, t);
  }

  lemma {:induction false} PropertiesSymbolsExactly(ps: seq<Property>, t: Symbol)
    ensures t in PropertiesSymbols(ps) <==>
              || (exists p :: p in ps && !p.ty.SelectProp? && !p.ty.ChoiceProp? && t in SymbolsOpt(p.visible))
              || (exists p :: p in ps && p.ty.DefaultProp? && t in SymbolsOpt(p.expr))
  {
    if ps != [] {
      PropertiesSymbolsExactly(ps[1..], t);
      assert forall p :: p in ps <==> p == ps[0] || p in ps[1..];
    }
  }

  /** Each symbol depends on the next one, and the last one on the first. */
  ghost predicate IsCycle(g: SymbolGraph, c: seq<Symbol>) {
    c != [] && forall i :: 0 <= i < |c| ==> c[if i + 1 < |c| then i + 1 else 0] in Edges(g(c[i]))
  }

  ghost predicate Ordered(g: SymbolGraph, rank: map<Symbol, nat>) {
    forall s, t {:trigger t in Edges(g(s))} :: s in rank && t in Edges(g(s)) ==> t in rank && rank[t] < rank[s]
  }

  lemma {:induction false} CycleDescends(g: SymbolGraph, rank: map<Symbol, nat>, c: seq<Symbol>, i: nat)
    requires Ordered(g, rank) && IsCycle(g, c) && i < |c| && c[0] in rank
    ensures c[i] in rank && rank[c[i]] <= rank[c[0]]
    ensures var next := c[if i + 1 < |c| then i + 1 else 0]; next in rank && rank[next] < rank[c[i]]
  {
    if i > 0 {
      CycleDescends(g, rank, c, i - 1);
    }
    assert c[if i + 1 < |c| then i + 1 else 0] in Edges(g(c[i]));
  }

  /** Ordered symbols are on no cycle. */
  lemma NoCycleInOrder(g: SymbolGraph, rank: map<Symbol, nat>, c: seq<Symbol>)
    requires Ordered(g, rank) && IsCycle(g, c)
    ensures c[0] !in rank
  {
    if c[0] in rank {
      CycleDescends(g, rank, c, |c| - 1);
    }
  }

  lemma {:induction false} AllProperties(ps: seq<Property>, ss: set<Symbol>)
    requires forall j :: 0 <= j < |ps| ==> PropertySymbols(ps[j]) <= ss
    ensures PropertiesSymbols(ps) <= ss
  {
    if ps != [] {
      AllProperties(ps[1..], ss);
    }
  }

  lemma OrderedGrows(g: SymbolGraph, rank: map<Symbol, nat>, s: Symbol, n: nat)
    requires Ordered(g, rank) && s !in rank && Edges(g(s)) <= rank.Keys && forall t :: t in rank ==> rank[t] < n
    ensures Ordered(g, rank[s := n])
  {
  }

  // ---------- the stack ----------

  /** `struct dep_stack` */
  class DepStack {
    var prev: DepStack?
    var next: DepStack?
    var sym: Symbol
    var prop: Option<Property>
    var expr: Option<Expr>

    constructor ()
      ensures prev == null && next == null && prop == None && expr == None
    {
      prev, next, sym, prop, expr := null, null, SymNo, None, None;
    }
  }

  /** Why one symbol depends on another, as the message says it. */
  datatype Reason = ValueContains | DependsOn | SelectedBy

  datatype Line = Line(sym: Symbol, next: Symbol, reason: Reason)

  /** The contents of a stack entry. */
  datatype Step = Step(sym: Symbol, prop: Option<Property>, expr: Option<Expr>) {
    /** What is printed for it, if the next symbol is `next`. */
    function Message(next: Symbol): Line {
      Line(sym, next, if expr.Some? then ValueContains else if prop.Some? then DependsOn else SelectedBy)
    }
  }

  /** The message is true. */
  ghost predicate Truthful(g: SymbolGraph, l: Line) {
    var x := g(l.sym);
    match l.reason
    case SelectedBy => l.next in SymbolsOpt(x.revDep)
    case DependsOn => exists p :: p in x.props && l.next in SymbolsOpt(p.visible) && l.next in PropertySymbols(p)
    case ValueContains => exists p :: p in x.props && p.ty.DefaultProp? && l.next in SymbolsOpt(p.expr)
  }

  /** The symbols an entry can lead to, given what it is looking at. */
  function Targets(g: SymbolGraph, d: Step): set<Symbol> {
    if d.expr.Some? then Symbols(d.expr.value)
    else if d.prop.Some? then SymbolsOpt(d.prop.value.visible)
    else SymbolsOpt(g(d.sym).revDep)
  }

  /** An entry looks at a property of its symbol that counts. */
  predicate GoodStep(g: SymbolGraph, d: Step) {
    && (d.prop.Some? ==> d.prop.value in g(d.sym).props && !d.prop.value.ty.ChoiceProp? && !d.prop.value.ty.SelectProp?)
    && (d.expr.Some? ==> d.prop.Some? && d.prop.value.ty.DefaultProp? && d.prop.value.expr == d.expr)
  }

  lemma GoodStepIsTruthful(g: SymbolGraph, d: Step, next: Symbol)
    requires GoodStep(g, d) && next in Targets(g, d)
    ensures Truthful(g, d.Message(next))
  {
  }

  /** Each entry of the stack leads to the one above it. */
  predicate GoodPath(g: SymbolGraph, path: seq<Step>) {
    path == []
    || (var below, top := path[..|path| - 1], path[|path| - 1];
        GoodPath(g, below) && GoodStep(g, top) && (below != [] ==> top.sym in Targets(g, below[|below| - 1])))
  }

  function PathSymbols(path: seq<Step>): set<Symbol> {
    if path == [] then {} else PathSymbols(path[..|path| - 1]) + {path[|path| - 1].sym}
  }

  /** What the topmost entry looks at does not matter for those below. */
  lemma TopChanges(g: SymbolGraph, path: seq<Step>, top: Step)
    requires path != [] && GoodPath(g, path) && GoodStep(g, top) && top.sym == path[|path| - 1].sym
    ensures var path' := path[..|path| - 1] + [top]; GoodPath(g, path') && PathSymbols(path') == PathSymbols(path)
  {
    var path' := path[..|path| - 1] + [top];
    assert path'[..|path'| - 1] == path[..|path| - 1];
  }

  lemma {:induction false} GoodPathAt(g: SymbolGraph, path: seq<Step>, i: nat)
    requires GoodPath(g, path) && i < |path|
    ensures GoodStep(g, path[i]) && (i + 1 < |path| ==> path[i + 1].sym in Targets(g, path[i]))
  {
    if i + 1 < |path| {
      GoodPathAt(g, path[..|path| - 1], i);
    }
  }

  lemma {:induction false} PathSymbolAt(path: seq<Step>, s: Symbol) returns (i: nat)
    requires s in PathSymbols(path)
    ensures i < |path| && path[i].sym == s
  {
    i := |path| - 1;
    if path[i].sym != s {
      i := PathSymbolAt(path[..i], s);
    }
  }

  lemma {:induction false} PropertyInList(ps: seq<Property>, p: Property)
    requires p in ps
    ensures PropertySymbols(p) <= PropertiesSymbols(ps)
  {
    if p != ps[0] {
      PropertyInList(ps[1..], p);
    }
  }

  lemma TruthfulIsEdge(g: SymbolGraph, l: Line)
    requires Truthful(g, l)
    ensures l.next in Edges(g(l.sym))
  {
    match l.reason
    case SelectedBy =>
    case DependsOn =>
      var p :| p in g(l.sym).props && l.next in SymbolsOpt(p.visible) && l.next in PropertySymbols(p);
      PropertyInList(g(l.sym).props, p);
    case ValueContains =>
      var p :| p in g(l.sym).props && p.ty.DefaultProp? && l.next in SymbolsOpt(p.expr);
      PropertyInList(g(l.sym).props, p);
  }

  /** A report names every symbol of a cycle, each with the next one. */
  ghost predicate GoodReport(g: SymbolGraph, r: seq<Line>) {
    && r != []
    && (forall i :: 0 <= i < |r| ==> Truthful(g, r[i]))
    && (forall i :: 0 <= i < |r| ==> r[i].next == r[if i + 1 < |r| then i + 1 else 0].sym)
  }

  lemma ReportShowsCycle(g: SymbolGraph, r: seq<Line>)
    requires GoodReport(g, r)
    ensures exists c :: IsCycle(g, c) && c[0] == r[0].sym
  {
    forall i | 0 <= i < |r| ensures r[i].next in Edges(g(r[i].sym)) {
      TruthfulIsEdge(g, r[i]);
    }
    assert IsCycle(g, seq(|r|, i requires 0 <= i < |r| => r[i].sym));
  }

  /** One line per entry; `last` is the symbol above the topmost. */
  function Messages(path: seq<Step>, last: Symbol): seq<Line> {
    if path == [] then []
    else
      var top := path[|path| - 1];
      Messages(path[..|path| - 1], top.sym) + [top.Message(last)]
  }

  lemma {:induction false} MessageAt(path: seq<Step>, last: Symbol, i: nat)
    requires i < |path|
    ensures |Messages(path, last)| == |path|
    ensures Messages(path, last)[i] == path[i].Message(if i + 1 < |path| then path[i + 1].sym else last)
  {
    var below, top := path[..|path| - 1], path[|path| - 1];
    if i < |below| {
      MessageAt(below, top.sym, i);
    } else if below != [] {
      MessageAt(below, top.sym, 0);
    }
  }

  lemma MessagesShowCycle(g: SymbolGraph, path: seq<Step>, bottom: nat, last: Symbol)
    requires GoodPath(g, path) && bottom < |path| && path[bottom].sym == last && last in Targets(g, path[|path| - 1])
    ensures var r := Messages(path[bottom..], last); GoodReport(g, r) && r[0].sym == last
  {
    var part := path[bottom..];
    var r := Messages(part, last);
    MessageAt(part, last, 0);
    forall i | 0 <= i < |r| ensures Truthful(g, r[i]) && r[i].next == r[if i + 1 < |r| then i + 1 else 0].sym {
      MessageAt(part, last, i);
      MessageAt(part, last, if i + 1 < |r| then i + 1 else 0);
      GoodPathAt(g, path, bottom + i);
      GoodStepIsTruthful(g, path[bottom + i], r[i].next);
    }
  }

  // ---------- the search ----------

  class Checker {
    const info: SymbolGraph
    /** The symbols of the configuration. */
    ghost const universe: set<Symbol>

    /** The symbols with SYMBOL_CHECK, and those with SYMBOL_CHECKED. */
    var check: set<Symbol>
    var checked: set<Symbol>
    var checkTop: DepStack?
    /** What sym_check_print_recursive has printed. */
    var output: seq<seq<Line>>

    /** The entries from the bottom to check_top, and what they hold. */
    ghost var stack: seq<DepStack>
    ghost var path: seq<Step>
    /** The symbols whose search is over, ranked in the order in which it ended. */
    ghost var rank: map<Symbol, nat>
    ghost var count: nat

    // ---------- the stack ----------

    ghost predicate Linked()
      reads this`checkTop, this`stack, this`path, stack
    {
      && |stack| == |path|
      && checkTop == (if stack == [] then null else stack[|stack| - 1])
      && (forall i {:trigger stack[i].prev} ::
            0 <= i < |stack| ==> stack[i].prev == if i == 0 then null else stack[i - 1])
      && (forall i {:trigger stack[i].next} ::
            0 <= i < |stack| ==> stack[i].next == if i + 1 == |stack| then null else stack[i + 1])
      && (forall i {:trigger path[i]} ::
            0 <= i < |stack| ==> Step(stack[i].sym, stack[i].prop, stack[i].expr) == path[i])
      && (forall i, j :: 0 <= i < j < |stack| ==> stack[i] != stack[j])
    }

    /** dep_stack_insert */
    method Insert(entry: DepStack, sym: Symbol)
      requires Linked() && entry !in stack
      modifies this`checkTop, this`stack, this`path, entry, stack
      ensures Linked() && stack == old(stack) + [entry] && path == old(path) + [Step(sym, None, None)]
    {
      entry.prev, entry.next, entry.prop, entry.expr := null, null, None, None;
      if checkTop != null {
        checkTop.next := entry;
      }
      entry.prev := checkTop;
      entry.sym := sym;
      checkTop := entry;
      stack := stack + [entry];
      path := path + [Step(sym, None, None)];
    }

    /** dep_stack_remove */
    method Remove()
      requires Linked() && stack != []
      modifies this`checkTop, this`stack, this`path, stack
      ensures Linked() && stack == old(stack)[..|old(stack)| - 1] && path == old(path)[..|old(path)| - 1]
    {
      ghost var n := |stack| - 1;
      checkTop := checkTop.prev;
      if checkTop != null {
        checkTop.next := null;
      }
      stack := stack[..n];
      path := path[..n];
    }

    /** The assignments to stack.prop and stack.expr. */
    method SetReason(prop: Property, expr: Option<Expr>)
      requires Linked() && path != []
      modifies this`path, stack
      ensures Linked() &&
              path == old(path)[..|old(path)| - 1] + [Step(old(path)[|old(path)| - 1].sym, Some(prop), expr)]
    {
      var entry := checkTop;
      entry.prop := Some(prop);
      entry.expr := expr;
      path := path[..|path| - 1] + [Step(path[|path| - 1].sym, Some(prop), expr)];
    }

    // ---------- what holds at every step ----------

    ghost predicate Leads(ss: set<Symbol>)
      reads this`path
    {
      ss <= universe && (path != [] ==> ss <= Targets(info, path[|path| - 1]))
    }

    /** Every report is a cycle; as long as there is none, what is behind the search is in order. */
    ghost predicate Searched()
      reads this`check, this`checked, this`output, this`rank, this`count
    {
      && (forall r: seq<Line> :: r in output ==> GoodReport(info, r) && r[0].sym in universe)
      && check <= checked <= universe
      && (forall s :: s in rank ==> s in checked && s !in check && rank[s] < count)
      && (output == [] ==> Ordered(info, rank) && checked <= check + rank.Keys)
    }

    ghost predicate Closed() {
      forall s :: s in universe ==> Edges(info(s)) <= universe
    }

    ghost predicate Valid(extra: set<Symbol>)
      reads this, stack
    {
      && Closed() && Linked() && Searched()
      && GoodPath(info, path)
      // SYMBOL_CHECK is set exactly for the symbols on the stack, and for one about to be pushed
      && check == PathSymbols(path) + extra
    }

    /** A search leaves the stack and the flags of its symbols as they were, and only adds to the rest. */
    twostate predicate Progress()
      reads this
    {
      && stack == old(stack) && path == old(path) && check == old(check) && Growth()
    }

    twostate predicate Growth()
      reads this`checked, this`output, this`rank
    {
      old(checked) <= checked && old(output) <= output && old(rank.Keys) <= rank.Keys
    }

    // ---------- the search ----------

    /** sym_check_print_recursive: the symbol is found on the stack, and the report is a cycle. */
    method PrintRecursive(lastSym: Symbol)
      requires Linked() && GoodPath(info, path) && Leads({lastSym}) && lastSym in PathSymbols(path)
      modifies this`output
      ensures exists r: seq<Line> :: GoodReport(info, r) && r[0].sym == lastSym && output == old(output) + [r]
    {
      hide GoodPath, GoodReport, Targets, PathSymbols;
      ghost var i := PathSymbolAt(path, lastSym);
      var entry, bottom := FindEntry(lastSym, i);
      var lines := ReportFrom(entry, bottom, lastSym);
      MessagesShowCycle(info, path, bottom, lastSym);
      output := output + [lines];
    }

    /** Its first loop, down the stack; i shows that the symbol is there. */
    method FindEntry(lastSym: Symbol, ghost i: nat) returns (entry: DepStack, ghost bottom: nat)
      requires Linked() && i < |path| && path[i].sym == lastSym
      ensures bottom < |path| && path[bottom].sym == lastSym && entry == stack[bottom]
    {
      bottom := |stack| - 1;
      var e := checkTop;
      while e.sym != lastSym
        invariant i <= bottom < |stack| && e == stack[bottom]
        decreases bottom
      {
        assert path[bottom] == Step(e.sym, e.prop, e.expr);
        e := e.prev;
        bottom := bottom - 1;
      }
      entry := e;
      assert path[bottom] == Step(entry.sym, entry.prop, entry.expr);
    }

    /** Its second loop, up the stack. */
    method ReportFrom(start: DepStack, ghost bottom: nat, lastSym: Symbol) returns (lines: seq<Line>)
      requires Linked() && bottom < |path| && start == stack[bottom]
      ensures lines == Messages(path[bottom..], lastSym)
    {
      var entry: DepStack? := start;
      ghost var k := bottom;
      lines := [];
      while entry != null
        invariant bottom <= k <= |stack| && entry == (if k == |stack| then null else stack[k])
        invariant lines == Messages(path[bottom..k], if k < |path| then path[k].sym else lastSym)
        decreases |stack| - k
      {
        var nextSym := if entry.next != null then entry.next.sym else lastSym;
        assert path[k] == Step(entry.sym, entry.prop, entry.expr);
        assert k + 1 < |path| ==> path[k + 1].sym == nextSym;
        assert path[bottom..k + 1] == path[bottom..k] + [path[k]];
        lines := lines + [Step(entry.sym, entry.prop, entry.expr).Message(nextSym)];
        entry := entry.next;
        k := k + 1;
      }
      assert path[bottom..|path|] == path[bottom..];
    }

    /** sym_check_deps. Whatever it finds, the outermost call returns null: a result is a symbol on the
        stack. */
    method CheckDeps(s: Symbol) returns (r: Option<Symbol>)
      requires Valid({}) && Leads({s})
      modifies this, stack
      ensures Valid({}) && Progress()
      ensures s in checked && (r.Some? ==> r.value in check)
      ensures output == [] ==> s in rank && r == None
      decreases universe - checked, 0, 1
    {
      hide Linked, Ordered, GoodPath, Closed;
      if s in check {
        PrintRecursive(s);
        return Some(s);
      }
      if s in checked {
        return None;
      }
      r := CheckFresh(s);
    }

    /** The rest of sym_check_deps, for a symbol that is met for the first time. */
    method CheckFresh(s: Symbol) returns (r: Option<Symbol>)
      requires Valid({}) && Leads({s}) && s !in checked
      modifies this, stack
      ensures Valid({}) && Progress()
      ensures s in checked && (r.Some? ==> r.value in check)
      ensures output == [] ==> s in rank && r == None
      decreases universe - checked, 0, 0
    {
      hide Linked, Ordered, GoodPath, Closed;
      check, checked := check + {s}, checked + {s};
      r := CheckSymDeps(s);
      Finish(s);
      if r == Some(s) {
        r := None;
      }
    }

    /** The end of the search for s: SYMBOL_CHECK is cleared. */
    method Finish(s: Symbol)
      requires Valid({s}) && s !in PathSymbols(path) && (output == [] ==> Edges(info(s)) <= rank.Keys)
      modifies this`check, this`rank, this`count
      ensures Valid({}) && check == old(check) - {s}
      ensures old(rank.Keys) <= rank.Keys && (output == [] ==> s in rank)
    {
      hide Linked, GoodPath, Ordered, Closed, Edges, GoodReport;
      check := check - {s};
      if output == [] {
        OrderedGrows(info, rank, s, count);
        rank, count := rank[s := count], count + 1;
      }
    }

    /** sym_check_expr_deps */
    method CheckExprDeps(e: Expr) returns (r: Option<Symbol>)
      requires Valid({}) && Leads(Symbols(e))
      modifies this, stack
      ensures Valid({}) && Progress()
      ensures r.Some? ==> r.value in check
      ensures output == [] ==> Symbols(e) <= rank.Keys && r == None
      decreases universe - checked, 2, e
    {
      hide Linked, Searched, GoodPath, Closed, PathSymbols;
      match e
      case Sym(s) => r := CheckDeps(s);
      case Equal(ls, rs) => r := CheckTwo(ls, rs);
      case Unequal(ls, rs) => r := CheckTwo(ls, rs);
      case Not(a) => r := CheckExprDeps(a);
      case Bin(_, left, right) =>
        r := CheckExprDeps(left);
        if r == None {
          r := CheckExprDeps(right);
        }
    }

    /** The two sides of a comparison. */
    method CheckTwo(ls: Symbol, rs: Symbol) returns (r: Option<Symbol>)
      requires Valid({}) && Leads({ls, rs})
      modifies this, stack
      ensures Valid({}) && Progress()
      ensures r.Some? ==> r.value in check
      ensures output == [] ==> {ls, rs} <= rank.Keys && r == None
      decreases universe - checked, 1
    {
      hide Linked, Searched, GoodPath, Closed, PathSymbols;
      r := CheckDeps(ls);
      if r == None {
        r := CheckDeps(rs);
      }
    }

    method CheckExprDepsOpt(e: Option<Expr>) returns (r: Option<Symbol>)
      requires Valid({}) && Leads(SymbolsOpt(e))
      modifies this, stack
      ensures Valid({}) && Progress()
      ensures r.Some? ==> r.value in check
      ensures output == [] ==> SymbolsOpt(e) <= rank.Keys && r == None
      decreases universe - checked, 3
    {
      r := None;
      if e.Some? {
        r := CheckExprDeps(e.value);
      }
    }

    /** sym_check_sym_deps */
    method CheckSymDeps(sym: Symbol) returns (r: Option<Symbol>)
      requires Valid({sym}) && Leads({sym})
      modifies this, stack
      ensures Valid({sym}) && Progress()
      ensures r.Some? ==> r.value in check
      ensures output == [] ==> Edges(info(sym)) <= rank.Keys && r == None
      decreases universe - checked, 7
    {
      hide Linked, Searched, GoodPath, Closed, PathSymbols;
      ghost var below := path;
      ghost var entry := Push(sym);
      r := CheckOnTop(sym, below);
      Pop(sym, below);
    }

    /** Everything between the two: first the selects of the symbol, then its properties. */
    method CheckOnTop(sym: Symbol, ghost below: seq<Step>) returns (r: Option<Symbol>)
      requires Valid({}) && OnTop(sym, below) && path[|path| - 1] == Step(sym, None, None) && sym in universe
      modifies this, stack
      ensures Valid({}) && OnTop(sym, below) && Advance()
      ensures r.Some? ==> r.value in check
      ensures output == [] ==> Edges(info(sym)) <= rank.Keys && r == None
      decreases universe - checked, 6
    {
      hide Linked, Searched, GoodPath, PathSymbols;
      r := CheckExprDepsOpt(info(sym).revDep);
      if r == None {
        r := CheckProperties(sym, below);
      }
    }

    method Push(sym: Symbol) returns (ghost entry: DepStack)
      requires Valid({sym}) && Leads({sym})
      modifies this`checkTop, this`stack, this`path, stack
      ensures Valid({}) && OnTop(sym, old(path)) && path[|path| - 1] == Step(sym, None, None)
      ensures stack == old(stack) + [entry] && fresh(entry)
    {
      var top := new DepStack();
      entry := top;
      Insert(top, sym);
      assert path[..|path| - 1] == old(path);
    }

    method Pop(sym: Symbol, ghost below: seq<Step>)
      requires Valid({}) && OnTop(sym, below)
      modifies this`checkTop, this`stack, this`path, stack
      ensures Valid({sym}) && path == below && stack == old(stack)[..|old(stack)| - 1]
    {
      Remove();
    }

    /** The top of the stack belongs to sym, above what was there before. */
    ghost predicate OnTop(sym: Symbol, below: seq<Step>)
      reads this`path
    {
      path != [] && path[..|path| - 1] == below && path[|path| - 1].sym == sym
    }

    /** A search for the symbol on top of the stack changes only what its entry looks at. */
    twostate predicate Advance()
      reads this
    {
      stack == old(stack) && check == old(check) && Growth()
    }

    /** The loop over the properties. */
    method CheckProperties(sym: Symbol, ghost below: seq<Step>) returns (r: Option<Symbol>)
      requires Valid({}) && OnTop(sym, below) && path[|path| - 1].expr == None && sym in universe
      modifies this, stack
      ensures Valid({}) && OnTop(sym, below) && Advance()
      ensures r.Some? ==> r.value in check
      ensures output == [] ==> PropertiesSymbols(info(sym).props) <= rank.Keys && r == None
      decreases universe - checked, 5
    {
      hide Linked, Searched, GoodPath, Closed, PathSymbols;
      var ps := info(sym).props;
      r := None;
      for i := 0 to |ps|
        invariant Valid({}) && OnTop(sym, below) && path[|path| - 1].expr == None && Advance()
        invariant r == None
        invariant output == [] ==> forall j :: 0 <= j < i ==> PropertySymbols(ps[j]) <= rank.Keys
      {
        if ps[i].ty.ChoiceProp? || ps[i].ty.SelectProp? {
          continue;
        }
        r := CheckProperty(sym, ps[i], below);
        if r.Some? {
          return;
        }
      }
      if output == [] {
        AllProperties(ps, rank.Keys);
      }
    }

    /** The body of the loop. */
    method CheckProperty(sym: Symbol, p: Property, ghost below: seq<Step>) returns (r: Option<Symbol>)
      requires Valid({}) && OnTop(sym, below) && path[|path| - 1].expr == None && sym in universe
      requires p in info(sym).props && !p.ty.ChoiceProp? && !p.ty.SelectProp?
      modifies this, stack
      ensures Valid({}) && OnTop(sym, below) && Advance()
      ensures r.Some? ==> r.value in check
      ensures r == None ==> path[|path| - 1].expr == None
      ensures output == [] ==> PropertySymbols(p) <= rank.Keys && r == None
      decreases universe - checked, 4, 1
    {
      hide Linked, Searched, Closed, GoodPath;
      PropertyInList(info(sym).props, p);
      r := CheckExprOf(sym, p, None, below);
      if r.Some? || !p.ty.DefaultProp? || p.expr == None {
        return;
      }
      r := CheckExprOf(sym, p, p.expr, below);
      if r.Some? {
        return;
      }
      LookAt(sym, p, None, below);
    }

    /** The condition of the property, or its value. */
    method CheckExprOf(sym: Symbol, p: Property, expr: Option<Expr>, ghost below: seq<Step>) returns (r: Option<Symbol>)
      requires Valid({}) && OnTop(sym, below) && GoodStep(info, Step(sym, Some(p), expr)) && sym in universe
      modifies this, stack
      ensures Valid({}) && path == below + [Step(sym, Some(p), expr)] && Advance()
      ensures r.Some? ==> r.value in check
      ensures output == [] ==>
              r == None && (if expr.Some? then Symbols(expr.value) else SymbolsOpt(p.visible)) <= rank.Keys
      decreases universe - checked, 4, 0
    {
      hide Linked, Searched, GoodPath, PathSymbols;
      PropertyInList(info(sym).props, p);
      LookAt(sym, p, expr, below);
      r := CheckExprDepsOpt(if expr.Some? then expr else p.visible);
    }

    /** The entry on top looks at another expression. */
    method LookAt(sym: Symbol, p: Property, expr: Option<Expr>, ghost below: seq<Step>)
      requires Valid({}) && OnTop(sym, below) && GoodStep(info, Step(sym, Some(p), expr))
      modifies this`path, stack
      ensures Valid({}) && path == below + [Step(sym, Some(p), expr)]
    {
      hide Linked, Searched, Closed, GoodPath, GoodStep, Targets, PathSymbols;
      ghost var top := Step(sym, Some(p), expr);
      TopChanges(info, path, top);
      SetReason(p, expr);
      assert path == below + [top];
    }

    // ---------- the whole check ----------

    constructor (info: SymbolGraph, ghost universe: set<Symbol>)
      requires forall s :: s in universe ==> Edges(info(s)) <= universe
      ensures this.info == info && this.universe == universe
      ensures Valid({}) && path == [] && stack == [] && output == [] && check == {} && checked == {}
    {
      this.info, this.universe := info, universe;
      check, checked, checkTop, output := {}, {}, null, [];
      stack, path, rank, count := [], [], map[], 0;
    }

    /** The loop over all symbols after parsing: a recursion is reported exactly when there is one.
        No call returns a symbol, so the error counter of the caller stays at zero. */
    method CheckAll(symbols: seq<Symbol>) returns (errors: int)
      requires Valid({}) && path == [] && stack == [] && output == [] && check == {}
      requires forall s :: s in universe <==> s in symbols
      modifies this
      ensures forall r :: r in output ==> GoodReport(info, r)
      ensures output != [] <==> exists c :: IsCycle(info, c) && c[0] in universe
      ensures output == [] ==> universe <= rank.Keys && Ordered(info, rank)
      ensures errors == 0
    {
      hide Linked, Ordered, GoodPath, Closed;
      errors := 0;
      for i := 0 to |symbols|
        invariant Valid({}) && path == [] && stack == [] && check == {} && errors == 0
        invariant forall j :: 0 <= j < i ==> symbols[j] in checked
      {
        assert symbols[i] in symbols;
        var r := CheckDeps(symbols[i]);
        if r.Some? {
          errors := errors + 1;
        }
      }
      ReportedIffCyclic();
    }

    lemma ReportedIffCyclic()
      requires Searched() && (output == [] ==> universe <= rank.Keys)
      ensures output != [] <==> exists c :: IsCycle(info, c) && c[0] in universe
    {
      if output != [] {
        ReportShowsCycle(info, output[0]);
      }
      forall c | IsCycle(info, c) && c[0] in universe ensures output != [] {
        if output == [] {
          NoCycleInOrder(info, rank, c);
        }
      }
    }
  }

  // ---------- what the check means for evaluation ----------

  function PromptProperties(ps: seq<Option<Expr>>): seq<Property> {
    if ps == [] then [] else [Property(Prompt, ps[0], None)] + PromptProperties(ps[1..])
  }

  function DefaultProperties(ds: seq<Default>): seq<Property> {
    if ds == [] then [] else [Property(DefaultProp, ds[0].cond, Some(ds[0].value))] + DefaultProperties(ds[1..])
  }

  function RangeProperties(rs: seq<Range>): seq<Property> {
    if rs == [] then [] else [Property(RangeProp, rs[0].cond, None)] + RangeProperties(rs[1..])
  }

  /** What the search sees of a symbol. */
  function InfoOf(p: Properties): SymbolInfo {
    SymbolInfo(p.revDep, PromptProperties(p.prompts) + (DefaultProperties(p.defaults) + RangeProperties(p.ranges)))
  }

  function Bounds(rs: seq<Range>): set<Symbol> {
    if rs == [] then {} else {rs[0].low, rs[0].high} + Bounds(rs[1..])
  }

  lemma {:induction false} PropertiesConcat(a: seq<Property>, b: seq<Property>)
    ensures PropertiesSymbols(a + b) == PropertiesSymbols(a) + PropertiesSymbols(b)
  {
    if a == [] {
      assert a + b == b;
    } else {
      assert (a + b)[1..] == a[1..] + b;
      PropertiesConcat(a[1..], b);
    }
  }

  lemma {:induction false} PromptsSeen(ps: seq<Option<Expr>>)
    ensures PropertiesSymbols(PromptProperties(ps)) == PromptSymbols(ps)
  {
    if ps != [] {
      PromptsSeen(ps[1..]);
    }
  }

  lemma {:induction false} DefaultsSeen(ds: seq<Default>)
    ensures PropertiesSymbols(DefaultProperties(ds)) == DefaultSymbols(ds)
  {
    if ds != [] {
      DefaultsSeen(ds[1..]);
    }
  }

  lemma {:induction false} RangesSeen(rs: seq<Range>)
    ensures PropertiesSymbols(RangeProperties(rs)) + Bounds(rs) == RangeSymbols(rs)
  {
    if rs != [] {
      RangesSeen(rs[1..]);
    }
  }

  /** The search misses the bounds of ranges, and dir_dep where nothing else repeats it. */
  lemma SearchMissesBounds(p: Properties)
    ensures Deps(p) == Edges(InfoOf(p)) + Bounds(p.ranges) + SymbolsOpt(p.dirDep)
  {
    PropertiesConcat(PromptProperties(p.prompts), DefaultProperties(p.defaults) + RangeProperties(p.ranges));
    PropertiesConcat(DefaultProperties(p.defaults), RangeProperties(p.ranges));
    PromptsSeen(p.prompts);
    DefaultsSeen(p.defaults);
    RangesSeen(p.ranges);
  }

  function InfoGraph(g: Kconfig): SymbolGraph {
    s => InfoOf(g(s))
  }

  /** What the evaluation of a symbol looks at, but the search does not. */
  function Unseen(p: Properties): set<Symbol> {
    Bounds(p.ranges) + SymbolsOpt(p.dirDep)
  }

  /** Evaluating each symbol needs the next one, and evaluating the last one needs the first. */
  ghost predicate IsCircular(g: Kconfig, c: seq<Symbol>) {
    c != [] && forall i :: 0 <= i < |c| ==> Next(c, i) in Deps(g(c[i]))
  }

  function Next(c: seq<Symbol>, i: nat): Symbol
    requires i < |c|
  {
    c[if i + 1 < |c| then i + 1 else 0]
  }

  lemma {:induction false} CircleDescends(g: Kconfig, rank: Symbol -> nat, c: seq<Symbol>, i: nat)
    requires Ranked(g, rank) && IsCircular(g, c) && i < |c|
    ensures rank(Next(c, i)) < rank(c[0])
  {
    hide Deps;
    assert Next(c, i) in Deps(g(c[i]));
    if i > 0 {
      CircleDescends(g, rank, c, i - 1);
    }
  }

  /** Each symbol of the walk needs the next one. */
  ghost predicate IsWalk(g: Kconfig, walk: seq<Symbol>) {
    forall i {:trigger walk[i]} :: 0 <= i < |walk| - 1 ==> walk[i + 1] in Deps(g(walk[i]))
  }

  /** Where each symbol needs another one of the same set, going on leads round in a circle. */
  lemma {:induction false} Circle(g: Kconfig, all: set<Symbol>, rest: set<Symbol>, walk: seq<Symbol>)
    returns (c: seq<Symbol>)
    requires forall s :: s in all ==> Deps(g(s)) * all != {}
    requires walk != [] && walk[|walk| - 1] in all && IsWalk(g, walk) && forall s :: s in all ==> s in rest || s in walk
    ensures IsCircular(g, c)
    decreases rest
  {
    hide Deps;
    var t :| t in Deps(g(walk[|walk| - 1])) * all;
    if t in walk {
      var k :| 0 <= k < |walk| && walk[k] == t;
      c := walk[k..];
      WalkCloses(g, walk, k);
    } else {
      WalkGoesOn(g, walk, t);
      c := Circle(g, all, rest - {t}, walk + [t]);
    }
  }

  lemma WalkCloses(g: Kconfig, walk: seq<Symbol>, k: nat)
    requires IsWalk(g, walk) && k < |walk| && walk[k] in Deps(g(walk[|walk| - 1]))
    ensures IsCircular(g, walk[k..])
  {
    hide Deps;
    var c := walk[k..];
    forall i | 0 <= i < |c| ensures Next(c, i) in Deps(g(c[i])) {
      assert c[i] == walk[k + i];
    }
  }

  lemma WalkGoesOn(g: Kconfig, walk: seq<Symbol>, t: Symbol)
    requires walk != [] && IsWalk(g, walk) && t in Deps(g(walk[|walk| - 1]))
    ensures IsWalk(g, walk + [t])
  {
    hide Deps;
  }

  /** Ranks one symbol after the other: either one needs none that is waiting, or they wait in a circle. */
  lemma {:induction false} RankOrCircle(g: Kconfig, waiting: set<Symbol>, rank: Symbol -> nat, n: nat)
    requires forall s :: s !in waiting ==> rank(s) < n
    requires forall s, t {:trigger t in Deps(g(s))} :: s !in waiting && t in Deps(g(s)) ==>
             t !in waiting && rank(t) < rank(s)
    ensures (exists rank' :: Ranked(g, rank')) || exists c :: IsCircular(g, c)
    decreases waiting
  {
    hide Deps;
    if s :| s in waiting && Deps(g(s)) * waiting == {} {
      forall t | t in Deps(g(s)) ensures t !in waiting {
        assert t in waiting ==> t in Deps(g(s)) * waiting;
      }
      RankOrCircle(g, waiting - {s}, t => if t == s then n else rank(t), n + 1);
    } else if s :| s in waiting {
      var c := Circle(g, waiting, waiting - {s}, [s]);
    } else {
      assert Ranked(g, rank);
    }
  }

  /** Evaluation is well-founded, if and only if no symbols need each other in a circle. */
  lemma RankedIffNotCircular(g: Kconfig, universe: set<Symbol>)
    requires forall s :: s !in universe ==> Deps(g(s)) == {}
    ensures (exists rank :: Ranked(g, rank)) <==> !exists c :: IsCircular(g, c)
  {
    RankOrCircle(g, universe, s => 0, 1);
    forall rank, c | Ranked(g, rank) && IsCircular(g, c) ensures false {
      CircleDescends(g, rank, c, |c| - 1);
    }
  }

  /** The circle goes through a bound, or through a dir_dep, that the search does not follow. */
  ghost predicate Escapes(g: Kconfig, c: seq<Symbol>) {
    exists i :: 0 <= i < |c| && Next(c, i) in Unseen(g(c[i])) && Next(c, i) !in Edges(InfoOf(g(c[i])))
  }

  /** What an empty report means for evaluation: it is well-founded, if and only if there is no circle that
      escapes the search. */
  lemma UnreportedIsRanked(g: Kconfig, universe: set<Symbol>, order: map<Symbol, nat>)
    requires Ordered(InfoGraph(g), order) && universe <= order.Keys
    requires forall s :: s !in universe ==> Deps(g(s)) == {}
    ensures (exists rank :: Ranked(g, rank)) <==> !exists c :: IsCircular(g, c) && Escapes(g, c)
  {
    hide Deps, Edges, InfoOf, Bounds;
    RankedIffNotCircular(g, universe);
    forall c | IsCircular(g, c) ensures Escapes(g, c) {
      if !Escapes(g, c) {
        forall i | 0 <= i < |c| ensures Next(c, i) in Edges(InfoGraph(g)(c[i])) {
          SearchMissesBounds(g(c[i]));
        }
        assert IsCycle(InfoGraph(g), c);
        assert Next(c, 0) in Deps(g(c[0]));
        NoCycleInOrder(InfoGraph(g), order, c);
      }
    }
  }

  /** The usual case: every bound and dependency the search misses is a constant, or depends on nothing, or
      comes earlier in the order the search has found. */
  lemma UnreportedWithPlainBounds(g: Kconfig, universe: set<Symbol>, order: map<Symbol, nat>)
    requires Ordered(InfoGraph(g), order) && universe <= order.Keys
    requires forall s :: s !in universe ==> Deps(g(s)) == {}
    requires forall s, t :: s in universe && t in Unseen(g(s)) ==>
               Deps(g(t)) == {} || (t in order && order[t] < order[s])
    ensures Ranked(g, s => if Deps(g(s)) == {} then 0 else 1 + order[s])
  {
    hide Deps, Edges, InfoOf, Bounds;
    forall s: Symbol, t: Symbol | t in Deps(g(s)) && Deps(g(t)) != {} ensures order[t] < order[s] {
      SearchMissesBounds(g(s));
      assert t in Edges(InfoGraph(g)(s)) || t in Unseen(g(s));
    }
  }

  /** Two int symbols, each the bound of the other's range. */
  const CIRCULAR_BOUNDS: Kconfig := s =>
    if s == Config("A", Int) then
      Properties([None], [], [Range(Config("B", Int), Config("B", Int), None)], None, None)
    else if s == Config("B", Int) then
      Properties([None], [], [Range(Config("A", Int), Config("A", Int), None)], None, None)
    else Properties([], [], [], None, None)

  lemma BoundsOnly(r: Range)
    requires r.cond == None
    ensures Edges(InfoOf(Properties([None], [], [r], None, None))) == {}
  {
    var prompts, ranges := PromptProperties([None]), RangeProperties([r]);
    assert prompts == [Property(Prompt, None, None)] && prompts[1..] == [];
    var rs := [r];
    assert rs[1..] == [] && RangeProperties(rs) == [Property(RangeProp, rs[0].cond, None)] + RangeProperties(rs[1..]);
    assert ranges == [Property(RangeProp, None, None)] && ranges[1..] == [];
    assert PropertiesSymbols(prompts) == {} && PropertiesSymbols(ranges) == {};
    assert DefaultProperties([]) + ranges == ranges;
    PropertiesConcat(prompts, ranges);
  }

  /** The search finds nothing to report there, and there is no order of evaluation. */
  lemma CircularBoundsEscape()
    ensures !exists c :: IsCycle(InfoGraph(CIRCULAR_BOUNDS), c)
    ensures !exists rank :: Ranked(CIRCULAR_BOUNDS, rank)
  {
    var a, b := Config("A", Int), Config("B", Int);
    BoundsOnly(Range(a, a, None));
    BoundsOnly(Range(b, b, None));
    forall c | IsCycle(InfoGraph(CIRCULAR_BOUNDS), c) ensures false {
      NoCycleInOrder(InfoGraph(CIRCULAR_BOUNDS), map[c[0] := 0], c);
    }
    assert IsCircular(CIRCULAR_BOUNDS, [a, b]);
    forall rank | Ranked(CIRCULAR_BOUNDS, rank) ensures false {
      CircleDescends(CIRCULAR_BOUNDS, rank, [a, b], 1);
    }
  }
}
