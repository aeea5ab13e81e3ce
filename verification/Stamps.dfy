/** Incremental builds: conf_write_autoconf rewrites auto.conf and, through conf_split_config,
    touches a stamp file for every symbol that changed since auto.conf was last written. */
module Stamps {
  import opened Tristates
  import opened Exprs
  import opened Strings
  import opened Configuration
  import opened ConfigFiles
  import opened SymbolTables

  /** What decides the line of a symbol in auto.conf: SYMBOL_WRITE and the string value. */
  datatype Row = Row(sym: Symbol, write: bool, str: string)

  /** The line of a symbol in auto.conf, where symbols that are n have none. */
  function AutoLine(prefix: string, r: Row): Option<string> {
    if r.write then SymbolLine(prefix, r.sym, r.str, true) else None
  }

  function AutoLines(prefix: string, rows: seq<Row>): seq<string> {
    if rows == [] then []
    else OptionLine(AutoLine(prefix, rows[0])) + AutoLines(prefix, rows[1..])
  }

  function RowOf(g: Kconfig, val: Values, s: Symbol): Row {
    Row(s, Writes(s, g(s), val), StringValue(s, val(s)))
  }

  function RowsOf(g: Kconfig, val: Values, all: seq<Symbol>): seq<Row> {
    if all == [] then [] else [RowOf(g, val, all[0])] + RowsOf(g, val, all[1..])
  }

  /** A bool or tristate symbol has a line in auto.conf if and only if it is not n, and the line says y. */
  lemma LogicalLine(g: Kconfig, user: UserValues, val: Values, prefix: string, s: Symbol)
    requires Solves(g, user, val) && s.IsLogical()
    ensures AutoLine(prefix, RowOf(g, val, s)) == if val(s).tri == NO then None else Some(prefix + NameOf(s) + "=y")
  {
    if !Writes(s, g(s), val) {
      ValueIsWritten(g, user, val, s);
    }
    assert val(s) == Calc(s, g(s), UserOf(user, s), val);
    assert prefix + NameOf(s) + "=" + "y" == prefix + NameOf(s) + "=y";
  }

  /** A string symbol with a value has the line that assigns it. */
  lemma StringLine(g: Kconfig, user: UserValues, val: Values, prefix: string, s: Symbol)
    requires Solves(g, user, val) && s.Type().String? && val(s).str != ""
    ensures AutoLine(prefix, RowOf(g, val, s)) == Some(prefix + NameOf(s) + "=" + Escape(val(s).str))
  {
    if !Writes(s, g(s), val) {
      ValueIsWritten(g, user, val, s);
    }
  }

  /** The file has the lines of all symbols, and no others. */
  lemma {:induction false} LinesOfAll(prefix: string, g: Kconfig, val: Values, all: seq<Symbol>, line: string)
    ensures line in AutoLines(prefix, RowsOf(g, val, all))
       <==> exists s :: s in all && AutoLine(prefix, RowOf(g, val, s)) == Some(line)
  {
    hide AutoLine, RowOf;
    if all != [] {
      LinesOfAll(prefix, g, val, all[1..], line);
      assert RowsOf(g, val, all)[1..] == RowsOf(g, val, all[1..]);
      if s :| s in all && AutoLine(prefix, RowOf(g, val, s)) == Some(line) {
        assert s == all[0] || s in all[1..];
      }
      if s :| s in all[1..] && AutoLine(prefix, RowOf(g, val, s)) == Some(line) {
        assert s in all;
      }
    }
  }

  // ---------- conf_split_config ----------

  /** Whether the stamp of a symbol is touched, given what was read from the old auto.conf
      (S_DEF_AUTO) and what the symbol has now. */
  predicate Touched(s: Symbol, old_: Option<SymVal>, write: bool, curr: SymVal) {
    if write then
      if old_.Some? then
        (if s.IsLogical() then curr.tri != old_.value.tri
         else !s.Type().Unknown? ==> StringValue(s, curr) != old_.value.str)
      else
        (s.IsLogical() ==> curr.tri != NO)
    else old_.Some?
  }

  function TouchedOf(g: Kconfig, val: Values, auto: UserValues, all: seq<Symbol>): seq<Symbol> {
    if all == [] then []
    else
      var s := all[|all| - 1];
      TouchedOf(g, val, auto, all[..|all| - 1])
        + (if Touched(s, UserOf(auto, s), Writes(s, g(s), val), val(s)) then [s] else [])
  }

  /** conf_split_config after sym_clear_all_valid: `auto` is what conf_read_simple found in the old
      file, `all` the symbols in the order of the symbol hash. */
  method SplitConfig(t: SymbolTable, auto: UserValues, all: seq<Symbol>) returns (touched: seq<Symbol>)
    requires t.Coherent({}) && t.cleared == {} && forall s :: s in all ==> !s.Type().Unknown?
    modifies t`valid, t`entries
    ensures t.Coherent({})
    ensures touched == TouchedOf(t.kconfig, t.val, auto, all)
  {
    touched := [];
    for i := 0 to |all|
      invariant t.Coherent({})
      invariant touched == TouchedOf(t.kconfig, t.val, auto, all[..i])
    {
      var touch := SplitEntry(t, auto, all[i]);
      assert all[..i + 1][..i] == all[..i];
      if touch {
        touched := touched + [all[i]];
      }
    }
    assert all[..|all|] == all;
  }

  /** The body of the loop: is the stamp of s reached, or is there a `continue` before it? */
  method SplitEntry(t: SymbolTable, auto: UserValues, s: Symbol) returns (touch: bool)
    requires t.Coherent({}) && t.cleared == {} && !s.Type().Unknown?
    modifies t`valid, t`entries
    ensures t.Coherent({})
    ensures touch == Touched(s, UserOf(auto, s), Writes(s, t.kconfig(s), t.val), t.val(s))
  {
    t.CalcValue(s, {});
    assert Defined(s);
    if t.At(s).write {
      if s in auto {
        if s.IsLogical() {
          if t.At(s).curr.tri == auto[s].tri {
            return false;
          }
        } else if StringValue(s, t.At(s).curr) == auto[s].str {
          return false;
        }
      } else if s.IsLogical() && t.At(s).curr.tri == NO {
        return false;
      }
    } else if s !in auto {
      return false;
    }
    touch := true;
  }

  /** The loop of conf_write_autoconf that writes auto.conf. */
  method WriteAutoconf(t: SymbolTable, prefix: string, all: seq<Symbol>) returns (lines: seq<string>)
    requires t.Coherent({}) && t.cleared == {} && forall s :: s in all ==> !s.Type().Unknown?
    modifies t`valid, t`entries
    ensures t.Coherent({})
    ensures lines == AutoLines(prefix, RowsOf(t.kconfig, t.val, all))
  {
    lines := [];
    for i := 0 to |all|
      invariant t.Coherent({})
      invariant lines == AutoLines(prefix, RowsOf(t.kconfig, t.val, all[..i]))
    {
      var line := AutoEntry(t, prefix, all[i]);
      assert all[..i + 1] == all[..i] + [all[i]];
      AutoLinesGrow(prefix, t.kconfig, t.val, all[..i], all[i]);
      if line.Some? {
        lines := lines + [line.value];
      }
    }
    assert all[..|all|] == all;
  }

  lemma {:induction false} AutoLinesGrow(prefix: string, g: Kconfig, val: Values, all: seq<Symbol>, s: Symbol)
    ensures AutoLines(prefix, RowsOf(g, val, all + [s]))
         == AutoLines(prefix, RowsOf(g, val, all)) + OptionLine(AutoLine(prefix, RowOf(g, val, s)))
  {
    if all == [] {
      assert RowsOf(g, val, [s]) == [RowOf(g, val, s)];
      assert all + [s] == [s];
    } else {
      var more := all + [s];
      assert more[0] == all[0] && more[1..] == all[1..] + [s];
      AutoLinesGrow(prefix, g, val, all[1..], s);
      assert RowsOf(g, val, all)[1..] == RowsOf(g, val, all[1..]);
      assert RowsOf(g, val, more)[1..] == RowsOf(g, val, more[1..]);
    }
  }

  method AutoEntry(t: SymbolTable, prefix: string, s: Symbol) returns (line: Option<string>)
    requires t.Coherent({}) && t.cleared == {} && !s.Type().Unknown?
    modifies t`valid, t`entries
    ensures t.Coherent({})
    ensures line == AutoLine(prefix, RowOf(t.kconfig, t.val, s))
  {
    t.CalcValue(s, {});
    assert Defined(s);
    line := if t.At(s).write then SymbolLine(prefix, s, StringValue(s, t.At(s).curr), true) else None;
  }

  // ---------- reading the old file ----------

  ghost predicate ProperRows(names: Names, prefix: string, rows: seq<Row>) {
    && ProperNames(names) && PlainName(prefix)
    && (forall r :: r in rows ==>
          && r.sym.Config? && PlainName(r.sym.name) && r.sym.name in names && names[r.sym.name] == r.sym
          && '\n' !in r.str && !r.sym.Type().Unknown?
          && (r.sym.IsLogical() ==> r.str == "y" || r.str == "n" || (r.str == "m" && r.sym.Type().Tristate?)))
    && (forall i, j :: 0 <= i < j < |rows| ==> rows[i].sym != rows[j].sym)
  }

  /** An int or hex value that is no number cannot be read back. */
  predicate Readable(r: Row) {
    Savable(r.sym, r.str)
  }

  /** What reading the line of r yields. */
  function ReadBack(r: Row): Option<SymVal> {
    if r.write && !(r.sym.IsLogical() && r.str == "n") then ValueRead(r.sym, r.str) else None
  }

  lemma AutoLineIsRead(names: Names, prefix: string, rows: seq<Row>, r: Row, auto: UserValues)
    requires ProperRows(names, prefix, rows) && r in rows && AutoLine(prefix, r).Some? && r.sym !in auto
    ensures var line := AutoLine(prefix, r).value;
            && '\n' !in line
            && LoadLine(names, prefix, auto, line)
               == if ReadBack(r).Some? then auto[r.sym := ReadBack(r).value] else auto
  {
    assert SymbolLine(prefix, r.sym, r.str, true) == SymbolLine(prefix, r.sym, r.str, false);
    LineIsRead(names, prefix, auto, r.sym, r.str);
  }

  lemma {:induction false} AutoLinesAreRead(names: Names, prefix: string, rows: seq<Row>, auto: UserValues, k: nat)
    requires ProperRows(names, prefix, rows) && k < |rows|
    requires forall r :: r in rows ==> r.sym !in auto
    ensures forall l :: l in AutoLines(prefix, rows) ==> '\n' !in l
    ensures UserOf(LoadLines(names, prefix, auto, AutoLines(prefix, rows)), rows[k].sym) == ReadBack(rows[k])
    decreases |rows|
  {
    var r, rest := rows[0], AutoLines(prefix, rows[1..]);
    var auto' := auto;
    if AutoLine(prefix, r).Some? {
      AutoLineIsRead(names, prefix, rows, r, auto);
      auto' := LoadLine(names, prefix, auto, AutoLine(prefix, r).value);
      assert AutoLines(prefix, rows) == [AutoLine(prefix, r).value] + rest;
      assert ([AutoLine(prefix, r).value] + rest)[1..] == rest;
    } else {
      assert AutoLines(prefix, rows) == [] + rest == rest;
      assert ReadBack(r) == None;
    }
    forall q | q in rows[1..] ensures q.sym !in auto' {
      var j :| 0 <= j < |rows[1..]| && rows[1..][j] == q;
      assert rows[j + 1] == q;
    }
    if k > 0 {
      AutoLinesAreRead(names, prefix, rows[1..], auto', k - 1);
    } else {
      OthersUntouched(names, prefix, rows[1..], auto', r.sym);
    }
  }

  lemma {:induction false} OthersUntouched(names: Names, prefix: string, rows: seq<Row>, auto: UserValues, s: Symbol)
    requires ProperRows(names, prefix, rows) && forall r :: r in rows ==> r.sym !in auto && r.sym != s
    ensures forall l :: l in AutoLines(prefix, rows) ==> '\n' !in l
    ensures UserOf(LoadLines(names, prefix, auto, AutoLines(prefix, rows)), s) == UserOf(auto, s)
    decreases |rows|
  {
    if rows != [] {
      var r, rest := rows[0], AutoLines(prefix, rows[1..]);
      var auto' := auto;
      if AutoLine(prefix, r).Some? {
        AutoLineIsRead(names, prefix, rows, r, auto);
        auto' := LoadLine(names, prefix, auto, AutoLine(prefix, r).value);
        assert AutoLines(prefix, rows) == [AutoLine(prefix, r).value] + rest;
        assert ([AutoLine(prefix, r).value] + rest)[1..] == rest;
      } else {
        assert AutoLines(prefix, rows) == [] + rest == rest;
      }
      forall q | q in rows[1..] ensures q.sym !in auto' {
        var j :| 0 <= j < |rows[1..]| && rows[1..][j] == q;
        assert rows[j + 1] == q;
      }
      OthersUntouched(names, prefix, rows[1..], auto', s);
    }
  }

  // ---------- stamps are exact ----------

  lemma SameLine(prefix: string, old_: Row, new_: Row)
    requires old_.sym == new_.sym && !new_.sym.Type().Unknown?
    requires new_.sym.IsLogical() ==> old_.str in ["y", "m", "n"] && new_.str in ["y", "m", "n"]
    ensures AutoLine(prefix, old_) == AutoLine(prefix, new_)
       <==> (|| (AutoLine(prefix, old_) == None && AutoLine(prefix, new_) == None)
             || (AutoLine(prefix, old_).Some? && AutoLine(prefix, new_).Some? && old_.str == new_.str))
  {
    var s := new_.sym;
    var a, b := AutoLine(prefix, old_), AutoLine(prefix, new_);
    if a.Some? && b.Some? && a == b {
      hide Escape;
      var p := prefix + NameOf(s) + "=";
      var ta := if s.Type().String? then Escape(old_.str) else old_.str;
      var tb := if s.Type().String? then Escape(new_.str) else new_.str;
      assert a.value[|p|..] == ta && b.value[|p|..] == tb;
      EscapeIsInjective(old_.str, new_.str);
    }
  }

  lemma EscapeIsInjective(a: string, b: string)
    ensures Escape(a) == Escape(b) ==> a == b
  {
    assert Escape(a)[1..] == EscapeBody(a) + "\"" + [];
    assert Escape(b)[1..] == EscapeBody(b) + "\"" + [];
    UnescapeUndoesEscape(a, []);
    UnescapeUndoesEscape(b, []);
  }

  /** A symbol's stamp is touched exactly when its line in auto.conf changes, appears or vanishes,
      provided the old line, if there is one, can be read. If it cannot (an int or hex that is not a
      number), the stamp is touched exactly when there is a new line, changed or not; and where dropping a
      carriage return makes a number of it, when the new line does not say this number. */
  lemma StampsAreExact(names: Names, prefix: string, oldRows: seq<Row>, k: nat, new_: Row, curr: SymVal)
    requires ProperRows(names, prefix, oldRows) && k < |oldRows| && ProperRows(names, prefix, [new_])
    requires new_.sym == oldRows[k].sym && new_.str == StringValue(new_.sym, curr) && curr.tri != MOD
    ensures var auto := LoadFile(names, prefix, JoinLines(AutoLines(prefix, oldRows)));
            var s, old_ := new_.sym, oldRows[k];
            var touched := Touched(s, UserOf(auto, s), new_.write, curr);
            if old_.write ==> Readable(old_)
            then touched <==> AutoLine(prefix, old_) != AutoLine(prefix, new_)
            else if ReadBack(old_) == None then touched <==> AutoLine(prefix, new_).Some?
            else touched <==> AutoLine(prefix, new_) == None || new_.str != ReadBack(old_).value.str
  {
    var s, old_ := new_.sym, oldRows[k];
    assert new_ in [new_];
    if Readable(old_) {
      SavableIsRead(old_.sym, old_.str);
    }
    AutoLinesAreRead(names, prefix, oldRows, map[], k);
    SplitUndoesJoin(AutoLines(prefix, oldRows));
    SameLine(prefix, old_, new_);
  }

  // ---------- from one build to the next ----------

  lemma {:induction false} TouchedOfHas(g: Kconfig, val: Values, auto: UserValues, all: seq<Symbol>, s: Symbol)
    ensures s in TouchedOf(g, val, auto, all)
       <==> s in all && Touched(s, UserOf(auto, s), Writes(s, g(s), val), val(s))
  {
    hide Touched, Writes;
    if all != [] {
      TouchedOfHas(g, val, auto, all[..|all| - 1], s);
      assert all == all[..|all| - 1] + [all[|all| - 1]];
    }
  }

  lemma {:induction false} RowsOfAt(g: Kconfig, val: Values, all: seq<Symbol>, k: nat)
    requires k < |all|
    ensures |RowsOf(g, val, all)| == |all| && RowsOf(g, val, all)[k] == RowOf(g, val, all[k])
  {
    if k > 0 {
      RowsOfAt(g, val, all[1..], k - 1);
    } else if |all| > 1 {
      RowsOfAt(g, val, all[1..], 0);
    }
  }

  /** The line auto.conf has for s when it is written for these symbols. */
  function LineIn(g: Kconfig, val: Values, prefix: string, all: seq<Symbol>, s: Symbol): Option<string> {
    if s in all then AutoLine(prefix, RowOf(g, val, s)) else None
  }

  /** One build writes auto.conf; at the next one the configuration, and even the Kconfig files, may
      be different. The stamps that are touched are then exactly those of the symbols whose line in
      auto.conf is different from the one in the old file, or is missing in one of the two. */
  lemma StampsFollowLines(names: Names, prefix: string, g: Kconfig, val: Values, all: seq<Symbol>,
                          g': Kconfig, val': Values, all': seq<Symbol>, s: Symbol)
    requires ProperRows(names, prefix, RowsOf(g, val, all)) && ProperRows(names, prefix, [RowOf(g', val', s)])
    requires s in all' && val'(s).tri != MOD
    requires s in all && Writes(s, g(s), val) ==> Readable(RowOf(g, val, s))
    ensures var auto := LoadFile(names, prefix, JoinLines(AutoLines(prefix, RowsOf(g, val, all))));
            s in TouchedOf(g', val', auto, all')
            <==> LineIn(g, val, prefix, all, s) != LineIn(g', val', prefix, all', s)
  {
    hide Touched, AutoLines, AutoLine, LoadLines, LoadFile, ProperRows, SplitLines, JoinLines, Readable, Writes;
    var rows := RowsOf(g, val, all);
    var auto := LoadFile(names, prefix, JoinLines(AutoLines(prefix, rows)));
    TouchedOfHas(g', val', auto, all', s);
    if s in all {
      var k :| 0 <= k < |all| && all[k] == s;
      RowsOfAt(g, val, all, k);
      StampsAreExact(names, prefix, rows, k, RowOf(g', val', s), val'(s));
    } else {
      forall r | r in rows ensures r.sym != s {
        var i :| 0 <= i < |rows| && rows[i] == r;
        RowsOfLength(g, val, all);
        RowsOfAt(g, val, all, i);
      }
      NewSymbolsAreTouched(names, prefix, rows, RowOf(g', val', s), val'(s));
    }
  }

  lemma {:induction false} RowsOfLength(g: Kconfig, val: Values, all: seq<Symbol>)
    ensures |RowsOf(g, val, all)| == |all|
  {
    if all != [] {
      RowsOfLength(g, val, all[1..]);
    }
  }

  /** A symbol that was not in the old file at all is touched exactly when it has a line now. */
  lemma NewSymbolsAreTouched(names: Names, prefix: string, oldRows: seq<Row>, new_: Row, curr: SymVal)
    requires ProperRows(names, prefix, oldRows) && ProperRows(names, prefix, [new_])
    requires (forall r :: r in oldRows ==> r.sym != new_.sym)
    requires new_.str == StringValue(new_.sym, curr) && curr.tri != MOD
    ensures var auto := LoadFile(names, prefix, JoinLines(AutoLines(prefix, oldRows)));
            Touched(new_.sym, UserOf(auto, new_.sym), new_.write, curr) <==> AutoLine(prefix, new_).Some?
  {
    assert new_ in [new_];
    OthersUntouched(names, prefix, oldRows, map[], new_.sym);
    SplitUndoesJoin(AutoLines(prefix, oldRows));
  }
}
