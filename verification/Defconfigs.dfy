/** The minimal configuration: conf_write_defconfig, and why loading it restores everything. */
module Defconfigs {
  import opened Tristates
  import opened Exprs
  import opened Configuration
  import opened ConfigFiles
  import opened Numbers
  import opened SymbolTables

  // ---------- which symbols are written ----------

  /** sym_get_string_default */
  function StringDefault(val: Values, s: Symbol, p: Properties): string {
    if s.IsLogical() then Letter(Promote(Max(DefaultTri(val, p.defaults), RevDep(val, s, p))))
    else if s.Type().Unknown? then ""
    else DefaultStr(val, p.defaults)
  }

  /** It is the value the symbol would have without a user value, except that a number is not yet held in its range. */
  lemma DefaultIsWithoutUser(val: Values, s: Symbol, p: Properties)
    requires !s.Type().Unknown?
    ensures var str := StringValue(s, Calc(s, p, None, val));
            str == if s.Type().Int? || s.Type().Hex? then Clamp(val, s.Type(), p.ranges, StringDefault(val, s, p))
                   else StringDefault(val, s, p)
  {
    hide Clamp, DefaultStr, DefaultTri, RevDep, Visibility;
  }

  /** Written by some entry, changeable by the user, and not what it would be anyway. */
  predicate Selected(val: Values, s: Symbol, p: Properties) {
    && Writes(s, p, val)
    && Visibility(val, p) > RevDep(val, s, p)
    && StringValue(s, val(s)) != StringDefault(val, s, p)
  }

  /** The lines for the menu entries still to come; `seen` are the symbols of those passed. */
  function Lines(g: Kconfig, val: Values, prefix: string, menus: seq<Symbol>, seen: set<Symbol>): seq<string> {
    if menus == [] then []
    else
      EntryLines(g, val, prefix, menus[0], seen) + Lines(g, val, prefix, menus[1..], seen + {menus[0]})
  }

  // ---------- conf_write_defconfig ----------

  /** sym_get_string_default on the symbol table: it calculates the visibility once more. */
  method GetStringDefault(t: SymbolTable, s: Symbol) returns (str: string)
    requires t.Coherent({}) && s in t.valid && !s.Type().Unknown?
    modifies t`valid, t`entries
    ensures t.Coherent({}) && old(t.valid) <= t.valid
    ensures forall r :: r in old(t.valid) ==> t.At(r) == old(t.At(r))
    ensures str == StringDefault(t.val, s, t.kconfig(s))
  {
    assert Defined(s);
    t.CalcVisibility(s, {s});
    if !s.IsLogical() {
      var _, text := t.DefaultText(s, {s});
      return text;
    }
    var tri := LogicalDefault(t, s);
    tri := Max(tri, t.At(s).revDep);
    str := Letter(if tri == MOD then YES else tri);
  }

  /** The default of a bool or tristate symbol. */
  method LogicalDefault(t: SymbolTable, s: Symbol) returns (tri: Tri)
    requires t.Coherent({s})
    modifies t`valid, t`entries
    ensures t.Coherent({s}) && old(t.valid) <= t.valid
    ensures forall r :: r in old(t.valid) ==> t.At(r) == old(t.At(r))
    ensures tri == DefaultTri(t.val, t.kconfig(s).defaults)
  {
    tri := NO;
    var d, cond := t.DefaultProp(s, {s});
    if d.Some? {
      tri := t.CalcExpr(d.value.value, s, {s});
      tri := Min(tri, cond);
    }
  }

  /** sym->flags &= ~SYMBOL_WRITE */
  method ClearWrite(t: SymbolTable, s: Symbol)
    requires t.Coherent({}) && s in t.valid && !s.Type().Unknown?
    modifies t`entries, t`cleared
    ensures t.Coherent({}) && t.cleared == old(t.cleared) + {s}
  {
    var before := t.entries;
    t.entries := r => if r == s then before(s).(write := false) else before(r);
    t.cleared := t.cleared + {s};
  }

  /** The symbols passed are those whose SYMBOL_WRITE flag is down, if it ever was up. */
  ghost predicate PassedAreCleared(t: SymbolTable, seen: set<Symbol>)
    reads t
  {
    t.cleared <= seen && forall s: Symbol :: s in seen && t.meaning(s).write ==> s in t.cleared
  }

  /** conf_write_defconfig: `menus` are the symbols of the menu entries in the order of the walk,
      choices left out. The lines are what the values of the configuration say, whatever the cache
      held before. */
  method WriteDefconfig(t: SymbolTable, prefix: string, menus: seq<Symbol>) returns (out: seq<string>)
    requires t.Interpreted() && t.ConstantsIntact()
    modifies t`valid, t`entries, t`cleared
    ensures out == Lines(t.kconfig, t.val, prefix, menus, {})
  {
    t.ClearAllValid();
    out := [];
    ghost var seen: set<Symbol> := {};
    assert menus[0..] == menus;
    assert PassedAreCleared(t, seen);
    hide Lines, EntryLines, PassedAreCleared;
    for i := 0 to |menus|
      invariant t.Coherent({}) && PassedAreCleared(t, seen)
      invariant out + Lines(t.kconfig, t.val, prefix, menus[i..], seen) == Lines(t.kconfig, t.val, prefix, menus, {})
    {
      assert menus[i..][1..] == menus[i + 1..];
      var lines := WriteEntry(t, prefix, menus[i], seen);
      LinesGoOn(t.kconfig, t.val, prefix, menus[i..], seen, out);
      out := out + lines;
      seen := seen + {menus[i]};
    }
    NoLines(t.kconfig, t.val, prefix, seen);
    assert menus[|menus|..] == [];
  }

  lemma NoLines(g: Kconfig, val: Values, prefix: string, seen: set<Symbol>)
    ensures Lines(g, val, prefix, [], seen) == []
  {
  }

  function EntryLines(g: Kconfig, val: Values, prefix: string, s: Symbol, seen: set<Symbol>): seq<string> {
    if s !in seen && Selected(val, s, g(s))
    then OptionLine(SymbolLine(prefix, s, StringValue(s, val(s)), false))
    else []
  }

  lemma LinesStep(g: Kconfig, val: Values, prefix: string, menus: seq<Symbol>, seen: set<Symbol>)
    requires menus != []
    ensures Lines(g, val, prefix, menus, seen)
         == EntryLines(g, val, prefix, menus[0], seen) + Lines(g, val, prefix, menus[1..], seen + {menus[0]})
  {
  }

  /** The same behind the lines that are out already. */
  lemma LinesGoOn(g: Kconfig, val: Values, prefix: string, menus: seq<Symbol>, seen: set<Symbol>, out: seq<string>)
    requires menus != []
    ensures out + Lines(g, val, prefix, menus, seen)
         == out + EntryLines(g, val, prefix, menus[0], seen) + Lines(g, val, prefix, menus[1..], seen + {menus[0]})
  {
    LinesStep(g, val, prefix, menus, seen);
  }

  /** The body of the loop. */
  method WriteEntry(t: SymbolTable, prefix: string, s: Symbol, ghost seen: set<Symbol>) returns (lines: seq<string>)
    requires t.Coherent({}) && PassedAreCleared(t, seen)
    modifies t`valid, t`entries, t`cleared
    ensures t.Coherent({}) && PassedAreCleared(t, seen + {s})
    ensures lines == EntryLines(t.kconfig, t.val, prefix, s, seen)
  {
    t.CalcValue(s, {});
    assert Defined(s);
    lines := [];
    if !s.Type().Unknown? && t.At(s).write {
      ClearWrite(t, s);
      if t.At(s).visible > t.At(s).revDep {
        var value := StringValue(s, t.At(s).curr);
        var default := GetStringDefault(t, s);
        if value != default {
          lines := OptionLine(SymbolLine(prefix, s, value, false));
        }
      }
    }
  }

  // ---------- loading it back ----------

  /** A configuration that can be saved: what the user can see stands in the menus, and no name or string breaks
      the file format. */
  ghost predicate Saveable(g: Kconfig, names: Names, prefix: string, menus: seq<Symbol>, val: Values) {
    && ProperNames(names) && PlainName(prefix)
    && (forall s :: s in menus ==> s.Config? && PlainName(s.name) && s.name in names && names[s.name] == s)
    && (forall s: Symbol :: !s.Type().Unknown? && Visibility(val, g(s)) != NO ==>
          s in menus && (!s.IsLogical() ==> '\n' !in val(s).str))
  }

  ghost predicate WrittenSomewhere(g: Kconfig, val: Values, menus: seq<Symbol>, seen: set<Symbol>, s: Symbol) {
    s in menus && s !in seen && Selected(val, s, g(s))
  }

  /** A written symbol has a line that can be read, if perhaps not to its value. */
  lemma SelectedIsWritable(g: Kconfig, user: UserValues, names: Names, prefix: string, menus: seq<Symbol>,
                           val: Values, s: Symbol)
    requires Solves(g, user, val) && Saveable(g, names, prefix, menus, val) && Selected(val, s, g(s))
    ensures s in menus && !s.Type().Unknown? && '\n' !in StringValue(s, val(s))
    ensures s.IsLogical() ==> Savable(s, StringValue(s, val(s)))
  {
    assert val(s) == Calc(s, g(s), UserOf(user, s), val);
  }

  /** Loading the written lines sets exactly the written symbols, each to what its line is read as. */
  lemma {:induction false} LoadedExactly(g: Kconfig, user: UserValues, names: Names, prefix: string,
                                         all: seq<Symbol>, menus: seq<Symbol>, val: Values,
                                         seen: set<Symbol>, loaded: UserValues, s: Symbol)
    requires Solves(g, user, val) && Saveable(g, names, prefix, all, val)
    requires forall r :: r in menus ==> r in all
    requires forall r :: r in loaded ==> r in seen
    ensures var lines := Lines(g, val, prefix, menus, seen);
            && (forall l :: l in lines ==> '\n' !in l)
            && UserOf(LoadLines(names, prefix, loaded, lines), s)
               == if WrittenSomewhere(g, val, menus, seen, s) then ValueRead(s, StringValue(s, val(s)))
                  else UserOf(loaded, s)
    decreases |menus|
  {
    hide SymbolLine, ValueRead, Selected, Calc, LoadLine, ProperNames, PlainName, Savable, Visibility, RevDep;
    if menus != [] {
      var r := menus[0];
      var str := StringValue(r, val(r));
      var rest := Lines(g, val, prefix, menus[1..], seen + {r});
      if r !in seen && Selected(val, r, g(r)) {
        SelectedIsWritable(g, user, names, prefix, all, val, r);
        LineIsRead(names, prefix, loaded, r, str);
        var line := SymbolLine(prefix, r, str, false).value;
        LoadedExactly(g, user, names, prefix, all, menus[1..], val, seen + {r},
                      LoadLine(names, prefix, loaded, line), s);
        assert Lines(g, val, prefix, menus, seen) == [line] + rest;
        assert ([line] + rest)[1..] == rest;
      } else {
        LoadedExactly(g, user, names, prefix, all, menus[1..], val, seen + {r}, loaded, s);
        assert Lines(g, val, prefix, menus, seen) == [] + rest == rest;
      }
    }
  }

  /** What the file gives s as its user value. */
  function SavedUser(val: Values, s: Symbol, p: Properties): Option<SymVal> {
    if Selected(val, s, p) then ValueRead(s, StringValue(s, val(s))) else None
  }

  /** When s keeps its value: always, if it is a bool or tristate symbol or cannot be seen. Otherwise, a line that is
      read has to be read as it is, and the range of a number must be stable for it; and without such a line
      the value must be the one it has by default. */
  predicate Restored(val: Values, s: Symbol, p: Properties, user: Option<SymVal>) {
    Visibility(val, p) != NO && !s.IsLogical() && !s.Type().Unknown? ==>
      match SavedUser(val, s, p)
      case Some(x) =>
        x.str == val(s).str && (s.Type().String? || StableRange(val, s.Type(), p.ranges, Wanted(val, p, user)))
      case None => val(s) == Calc(s, p, None, val)
  }

  /** The number before it is held in its range. */
  function Wanted(val: Values, p: Properties, user: Option<SymVal>): string {
    if Visibility(val, p) != NO && user.Some? then user.value.str else DefaultStr(val, p.defaults)
  }

  lemma RestoredExactly(s: Symbol, p: Properties, user: Option<SymVal>, val: Values)
    requires val(s) == Calc(s, p, user, val)
    ensures Calc(s, p, SavedUser(val, s, p), val) == val(s) <==> Restored(val, s, p, user)
  {
    if s.IsLogical() {
      assert Visibility(val, p) != MOD && RevDep(val, s, p) != MOD && val(s).tri != MOD;
    } else if s.Type().Int? || s.Type().Hex? {
      NumberRestoredExactly(s, p, user, val);
    }
  }

  lemma NumberRestoredExactly(s: Symbol, p: Properties, user: Option<SymVal>, val: Values)
    requires (s.Type().Int? || s.Type().Hex?) && val(s) == Calc(s, p, user, val)
    ensures Calc(s, p, SavedUser(val, s, p), val) == val(s) <==> Restored(val, s, p, user)
  {
    var saved := SavedUser(val, s, p);
    ClampTwice(val, s.Type(), p.ranges, Wanted(val, p, user));
    if saved.Some? && saved.value.str != val(s).str {
      ClampDropsNoCarriageReturn(val, s.Type(), p.ranges, val(s).str);
    }
  }

  lemma BoundFits(val: Values, s: Symbol, base: int)
    requires IsBase(base)
    ensures LLONG_MIN <= BoundValue(val, s, base) <= LLONG_MAX
  {
  }

  /** A carriage return that was dropped does not come back. */
  lemma ClampDropsNoCarriageReturn(val: Values, ty: SymType, rs: seq<Range>, str: string)
    requires (ty.Int? || ty.Hex?) && DropCarriageReturn(str) != str
    ensures Clamp(val, ty, rs, DropCarriageReturn(str)) != str
  {
    hide StrToLL, ShowDecimal, ShowHex, ActiveRange;
    if ActiveRange(val, rs).Some? {
      var r := ActiveRange(val, rs).value;
      BoundFits(val, r.low, Base(ty));
      BoundFits(val, r.high, Base(ty));
      ShownEndsInDigit(BoundValue(val, r.low, Base(ty)));
      ShownEndsInDigit(BoundValue(val, r.high, Base(ty)));
    }
  }

  /** For a visible string with a user value of its own, being changeable is what it takes: if it
      is selected as far as it is visible, its line is missing and its value is lost. */
  lemma SelectedStringIsLost(s: Symbol, p: Properties, user: SymVal, val: Values)
    requires s.Type().String? && Visibility(val, p) != NO && val(s) == Calc(s, p, Some(user), val)
    requires user.str != DefaultStr(val, p.defaults) && '\n' !in user.str
    ensures Restored(val, s, p, Some(user)) <==> RevDep(val, s, p) < Visibility(val, p)
  {
  }

  /** An int symbol that is written and read back is lost if and only if it was out of a range whose bounds are the
      wrong way round. */
  lemma InvertedRangeIsLost(s: Symbol, p: Properties, user: Option<SymVal>, val: Values)
    requires s.Type().Int? && Visibility(val, p) != NO && val(s) == Calc(s, p, user, val)
    requires Selected(val, s, p) && ValidInt(val(s).str)
    ensures !Restored(val, s, p, user) <==>
              ActiveRange(val, p.ranges).Some? &&
              var r := ActiveRange(val, p.ranges).value;
              BoundValue(val, r.high, 10) < BoundValue(val, r.low, 10)
  {
    SavableIsRead(s, val(s).str);
  }

  lemma SmallNumbers()
    ensures StrToLL("5", 10) == 5 && StrToLL("10", 10) == 10 && StrToLL("20", 10) == 20
    ensures ShowDecimal(10) == "10" && ShowDecimal(20) == "20"
  {
    assert "5"[1..] == "" && "10"[1..] == "0" && "20"[1..] == "0" && "0"[1..] == "";
    assert Digits("0", 10, 10) == 10 * 10 && Digits("0", 10, 1) == 10 && Digits("0", 10, 2) == 20;
    assert ShowNat(1, 10) == "1" && ShowNat(2, 10) == "2";
  }

  /** With `range 20 10`, 5 becomes 20, which is read back as 10. */
  lemma InvertedRangeExample(s: Symbol, val: Values)
    requires s.Type().Int? && val(Const("10")) == SymVal("10", NO) && val(Const("20")) == SymVal("20", NO)
    ensures var p := Properties([None], [], [Range(Const("20"), Const("10"), None)], None, None);
            Calc(s, p, Some(SymVal("5", NO)), val).str == "20" && Calc(s, p, Some(SymVal("20", NO)), val).str == "10"
  {
    SmallNumbers();
    assert EvalOpt(val, None) == YES;
    assert AnyPrompt(val, [None][..0]) == NO;
  }

  /** The file conf_write_defconfig produces, less the lines of the symbols in `dropped`. */
  function SavedFile(g: Kconfig, val: Values, prefix: string, menus: seq<Symbol>, dropped: set<Symbol>): string {
    JoinLines(Lines(g, val, prefix, menus, dropped))
  }

  lemma LoadedFile(g: Kconfig, user: UserValues, names: Names, prefix: string, menus: seq<Symbol>,
                   val: Values, dropped: set<Symbol>, s: Symbol)
    requires Solves(g, user, val) && Saveable(g, names, prefix, menus, val)
    ensures UserOf(LoadFile(names, prefix, SavedFile(g, val, prefix, menus, dropped)), s)
         == if s in dropped then None else SavedUser(val, s, g(s))
  {
    LoadedExactly(g, user, names, prefix, menus, menus, val, dropped, map[], s);
    SplitUndoesJoin(Lines(g, val, prefix, menus, dropped));
    if Selected(val, s, g(s)) {
      SelectedIsWritable(g, user, names, prefix, menus, val, s);
    }
  }

  /** A symbol is restored when those it depends on are. */
  lemma SymbolRestored(g: Kconfig, user: UserValues, names: Names, prefix: string, menus: seq<Symbol>,
                       val: Values, val': Values, dropped: set<Symbol>, s: Symbol)
    requires Solves(g, user, val) && Saveable(g, names, prefix, menus, val) && s !in dropped
    requires Solves(g, LoadFile(names, prefix, SavedFile(g, val, prefix, menus, dropped)), val')
    requires AgreeOn(val, val', Deps(g(s)))
    ensures val'(s) == val(s) <==> Restored(val, s, g(s), UserOf(user, s))
  {
    hide Restored, Calc;
    var loaded := LoadFile(names, prefix, SavedFile(g, val, prefix, menus, dropped));
    CalcAgrees(s, g(s), UserOf(loaded, s), val, val');
    LoadedFile(g, user, names, prefix, menus, val, dropped, s);
    RestoredExactly(s, g(s), UserOf(user, s), val);
  }

  lemma {:induction false} AllRestored(g: Kconfig, rank: Symbol -> nat, user: UserValues, names: Names,
                                       prefix: string, menus: seq<Symbol>, val: Values, val': Values,
                                       dropped: set<Symbol>, s: Symbol)
    requires Ranked(g, rank) && Solves(g, user, val) && Saveable(g, names, prefix, menus, val)
    requires Solves(g, LoadFile(names, prefix, SavedFile(g, val, prefix, menus, dropped)), val')
    requires forall r :: rank(r) <= rank(s) ==> r !in dropped && Restored(val, r, g(r), UserOf(user, r))
    ensures val'(s) == val(s)
    decreases rank(s)
  {
    hide Restored, Calc, Saveable;
    forall r | r in Deps(g(s)) ensures val(r) == val'(r) {
      AllRestored(g, rank, user, names, prefix, menus, val, val', dropped, r);
    }
    SymbolRestored(g, user, names, prefix, menus, val, val', dropped, s);
  }

  /** savedefconfig loses nothing, if and only if every symbol can be restored: then loading only what
      conf_write_defconfig wrote gives every symbol the value it had. */
  lemma DefconfigRestoresEverything(g: Kconfig, rank: Symbol -> nat, user: UserValues, names: Names,
                                    prefix: string, menus: seq<Symbol>, val: Values, val': Values)
    requires Ranked(g, rank) && Solves(g, user, val) && Saveable(g, names, prefix, menus, val)
    requires Solves(g, LoadFile(names, prefix, SavedFile(g, val, prefix, menus, {})), val')
    ensures (forall s :: val'(s) == val(s)) <==> (forall s :: Restored(val, s, g(s), UserOf(user, s)))
  {
    hide Restored, Calc, Saveable, Deps;
    if forall s :: Restored(val, s, g(s), UserOf(user, s)) {
      forall s ensures val'(s) == val(s) {
        AllRestored(g, rank, user, names, prefix, menus, val, val', {}, s);
      }
    }
    if forall s :: val'(s) == val(s) {
      forall s ensures Restored(val, s, g(s), UserOf(user, s)) {
        SymbolRestored(g, user, names, prefix, menus, val, val', {}, s);
      }
    }
  }

  /** Configurations of bool, tristate and string symbols in which every visible string can be changed are
      restored. */
  lemma PlainConfigurationIsRestored(g: Kconfig, user: UserValues, names: Names, prefix: string, menus: seq<Symbol>,
                                     val: Values, s: Symbol)
    requires Solves(g, user, val) && Saveable(g, names, prefix, menus, val)
    requires Visibility(val, g(s)) != NO && !s.IsLogical() && !s.Type().Unknown? ==>
               s.Type().String? && RevDep(val, s, g(s)) < Visibility(val, g(s))
    ensures Restored(val, s, g(s), UserOf(user, s))
  {
    assert val(s) == Calc(s, g(s), UserOf(user, s), val);
  }

  /** The default of a number is moved to the value it has anyway: conf_write_defconfig compares with the default as
      it is before it is held in the range. */
  predicate RangeMovesDefault(val: Values, s: Symbol, p: Properties) {
    (s.Type().Int? || s.Type().Hex?) && Clamp(val, s.Type(), p.ranges, DefaultStr(val, p.defaults)) == val(s).str
  }

  /** Without its line, a written symbol has another value, if and only if it is not a number whose default is moved
      to the same value. */
  lemma EveryLineIsNeeded(g: Kconfig, rank: Symbol -> nat, user: UserValues, names: Names,
                          prefix: string, menus: seq<Symbol>, val: Values, val': Values, s: Symbol)
    requires Ranked(g, rank) && Solves(g, user, val) && Saveable(g, names, prefix, menus, val)
    requires Selected(val, s, g(s))
    requires forall r :: rank(r) < rank(s) ==> Restored(val, r, g(r), UserOf(user, r))
    requires Solves(g, LoadFile(names, prefix, SavedFile(g, val, prefix, menus, {s})), val')
    ensures StringValue(s, val'(s)) != StringValue(s, val(s)) <==> !RangeMovesDefault(val, s, g(s))
  {
    hide Saveable, LoadFile, SavedFile, Restored, Calc, Deps;
    forall r | r in Deps(g(s)) ensures val(r) == val'(r) {
      AllRestored(g, rank, user, names, prefix, menus, val, val', {s}, r);
    }
    CalcAgrees(s, g(s), None, val, val');
    LoadedFile(g, user, names, prefix, menus, val, {s}, s);
    UnsavedSymbolGetsDefault(s, g(s), val, val'(s));
  }

  lemma UnsavedSymbolGetsDefault(s: Symbol, p: Properties, val: Values, x: SymVal)
    requires x == Calc(s, p, None, val) && Selected(val, s, p)
    ensures StringValue(s, x) != StringValue(s, val(s)) <==> !RangeMovesDefault(val, s, p)
  {
  }

  /** Dropping s is removing one line from the file: the line of s. */
  lemma {:induction false} DroppingIsRemovingALine(g: Kconfig, val: Values, prefix: string, menus: seq<Symbol>,
                                                   seen: set<Symbol>, s: Symbol) returns (k: nat)
    requires s in menus && s !in seen && Selected(val, s, g(s))
    ensures var lines := Lines(g, val, prefix, menus, seen);
            && k < |lines| && [lines[k]] == EntryLines(g, val, prefix, s, seen)
            && Lines(g, val, prefix, menus, seen + {s}) == lines[..k] + lines[k + 1..]
    decreases |menus|
  {
    OwnLine(g, val, prefix, s, seen);
    hide Selected, SymbolLine, Lines, StringValue;
    var r := menus[0];
    var rest := Lines(g, val, prefix, menus[1..], seen + {r});
    LinesStep(g, val, prefix, menus, seen);
    LinesStep(g, val, prefix, menus, seen + {s});
    var own := EntryLines(g, val, prefix, r, seen);
    if r == s {
      k := 0;
      assert seen + {s} + {r} == seen + {r};
      assert EntryLines(g, val, prefix, r, seen + {s}) == [];
      RemoveFirst(own, rest);
    } else {
      var j := DroppingIsRemovingALine(g, val, prefix, menus[1..], seen + {r}, s);
      assert seen + {r} + {s} == seen + {s} + {r};
      assert EntryLines(g, val, prefix, r, seen + {s}) == own;
      assert EntryLines(g, val, prefix, s, seen + {r}) == EntryLines(g, val, prefix, s, seen);
      k := |own| + j;
      RemoveLater(own, rest, j);
    }
  }

  lemma OwnLine(g: Kconfig, val: Values, prefix: string, s: Symbol, seen: set<Symbol>)
    requires s !in seen && Selected(val, s, g(s))
    ensures |EntryLines(g, val, prefix, s, seen)| == 1
  {
  }

  lemma RemoveFirst<T>(own: seq<T>, rest: seq<T>)
    requires |own| == 1
    ensures [(own + rest)[0]] == own && [] + rest == (own + rest)[..0] + (own + rest)[1..]
  {
  }

  lemma RemoveLater<T>(own: seq<T>, rest: seq<T>, j: nat)
    requires j < |rest|
    ensures var k := |own| + j;
            own + (rest[..j] + rest[j + 1..]) == (own + rest)[..k] + (own + rest)[k + 1..]
            && [(own + rest)[k]] == [rest[j]]
  {
  }
}
