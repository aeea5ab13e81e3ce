/** Configuration files as text: the lines kconfig_print_symbol writes and conf_read_simple reads. */
module ConfigFiles {
  import opened Tristates
  import opened Exprs
  import opened Strings
  import opened Configuration
  import opened Numbers

  // ---------- writing ----------

  const NOT_SET: string := "is not set"

  /** conf_write_symbol with kconfig_print_symbol: the line for a symbol whose string value is str,
      without its line feed. Nothing is written for an n if `skipUnset`, and nothing for a symbol of
      unknown type. */
  function SymbolLine(prefix: string, s: Symbol, str: string, skipUnset: bool): Option<string> {
    if s.Type().Unknown? then None
    else if s.IsLogical() && str != [] && str[0] == 'n' then
      if skipUnset then None else Some("# " + prefix + NameOf(s) + " " + NOT_SET)
    else Some(prefix + NameOf(s) + "=" + (if s.Type().String? then Escape(str) else str))
  }

  function OptionLine(l: Option<string>): seq<string> {
    if l.Some? then [l.value] else []
  }

  /** The lines of a symbol FOO. */
  lemma LinesOfFoo(s: Symbol)
    requires s.Config? && s.name == "FOO" && !s.Type().Unknown?
    ensures s.IsLogical() ==> SymbolLine("CONFIG_", s, "n", false) == Some("# CONFIG_FOO is not set")
    ensures s.IsLogical() ==> SymbolLine("CONFIG_", s, "n", true) == None
    ensures s.IsLogical() ==> SymbolLine("CONFIG_", s, "y", false) == Some("CONFIG_FOO=y")
    ensures s.Type().Int? ==> SymbolLine("CONFIG_", s, "-7", false) == Some("CONFIG_FOO=-7")
    ensures s.Type().String? ==> SymbolLine("CONFIG_", s, "", false) == Some("CONFIG_FOO=\"\"")
  {
    assert "# " + "CONFIG_" + "FOO" + " " + NOT_SET == "# CONFIG_FOO is not set";
    assert "CONFIG_" + "FOO" + "=" + "y" == "CONFIG_FOO=y";
    assert "CONFIG_" + "FOO" + "=" + "-7" == "CONFIG_FOO=-7";
    assert "CONFIG_" + "FOO" + "=" + "\"\"" == "CONFIG_FOO=\"\"" && Escape("") == "\"\"";
  }

  // ---------- reading ----------

  /** What conf_read_simple makes of a line. */
  datatype Line = Ignored | Unset(name: string) | Assigned(name: string, text: string)

  /** strchr: the part before the first c and the part after it */
  function SplitAt(s: string, c: char): Option<(string, string)> {
    if s == [] then None
    else if s[0] == c then Some(([], s[1..]))
    else match SplitAt(s[1..], c)
      case None => None
      case Some((a, b)) => Some(([s[0]] + a, b))
  }

  predicate StartsWith(s: string, p: string) {
    |p| <= |s| && s[..|p|] == p
  }

  function DropCarriageReturn(s: string): string {
    if s != [] && s[|s| - 1] == '\r' then s[..|s| - 1] else s
  }

  function ParseLine(prefix: string, line: string): Line {
    if line != [] && line[0] == '#' then
      if |line| < 2 || !StartsWith(line[2..], prefix) then Ignored
      else match SplitAt(line[2 + |prefix|..], ' ')
        case None => Ignored
        case Some((name, rest)) => if StartsWith(rest, NOT_SET) then Unset(name) else Ignored
    else if !StartsWith(line, prefix) then Ignored
    else match SplitAt(line[|prefix|..], '=')
      case None => Ignored
      case Some((name, text)) => Assigned(name, DropCarriageReturn(text))
  }

  predicate IsDecimal(c: char) {
    '0' <= c <= '9'
  }

  predicate IsHexDigit(c: char) {
    IsDecimal(c) || 'a' <= c <= 'f' || 'A' <= c <= 'F'
  }

  /** One digit or more, and no zero in front of others. */
  predicate Decimals(s: string) {
    s != [] && (s[0] == '0' ==> |s| == 1) && forall i :: 0 <= i < |s| ==> IsDecimal(s[i])
  }

  predicate HexDigits(s: string) {
    s != [] && forall i :: 0 <= i < |s| ==> IsHexDigit(s[i])
  }

  /** sym_string_valid for an int */
  predicate ValidInt(s: string) {
    if s != [] && s[0] == '-' then Decimals(s[1..]) else Decimals(s)
  }

  predicate HasHexPrefix(s: string) {
    |s| >= 2 && s[0] == '0' && (s[1] == 'x' || s[1] == 'X')
  }

  /** sym_string_valid for a hex */
  predicate ValidHex(s: string) {
    if HasHexPrefix(s) then HexDigits(s[2..]) else HexDigits(s)
  }

  /** conf_set_sym_val: the value read for a symbol of type ty; None leaves the symbol unset. */
  function ReadValue(ty: SymType, text: string): Option<SymVal> {
    match ty
    case Unknown => None
    case Int => if ValidInt(text) then Some(SymVal(text, NO)) else None
    case Hex => if ValidHex(text) then Some(SymVal(text, NO)) else None
    case String =>
      if text == [] || text[0] != '"' then None
      else (match Unescaped(text[1..]) case None => None case Some(str) => Some(SymVal(str, NO)))
    case _ =>
      if text == [] then None
      else if ty.Tristate? && text[0] == 'm' then Some(SymVal("", MOD))
      else if text[0] == 'y' then Some(SymVal("", YES))
      else if text[0] == 'n' then Some(SymVal("", NO))
      else None
  }

  /** sym_find: the symbol a name stands for. */
  type Names = map<string, Symbol>

  ghost predicate ProperNames(names: Names) {
    forall n :: n in names ==> names[n].Config? && names[n].name == n
  }

  /** One line of conf_read_simple. */
  function LoadLine(names: Names, prefix: string, user: UserValues, line: string): UserValues {
    match ParseLine(prefix, line)
    case Ignored => user
    case Unset(name) =>
      if name in names && names[name].IsLogical() then
        user[names[name] := SymVal(if names[name] in user then user[names[name]].str else "", NO)]
      else user
    case Assigned(name, text) =>
      if name in names then
        (match ReadValue(names[name].Type(), text) case None => user case Some(x) => user[names[name] := x])
      else user
  }

  function LoadLines(names: Names, prefix: string, user: UserValues, lines: seq<string>): UserValues
    decreases |lines|
  {
    if lines == [] then user
    else LoadLines(names, prefix, LoadLine(names, prefix, user, lines[0]), lines[1..])
  }

  // ---------- files ----------

  function JoinLines(lines: seq<string>): string {
    if lines == [] then [] else lines[0] + "\n" + JoinLines(lines[1..])
  }

  /** compat_getline until the end of the file; a last line may lack its line feed. */
  function SplitLines(text: string): seq<string>
    decreases |text|
  {
    match SplitAt(text, '\n')
    case None => if text == [] then [] else [text]
    case Some((line, rest)) => SplitShortens(text, '\n'); [line] + SplitLines(rest)
  }

  lemma {:induction false} SplitShortens(s: string, c: char)
    ensures SplitAt(s, c).Some? ==> |SplitAt(s, c).value.1| < |s|
  {
    if s != [] && s[0] != c {
      SplitShortens(s[1..], c);
    }
  }

  lemma {:induction false} SplitAtFirst(a: string, c: char, b: string)
    requires c !in a
    ensures SplitAt(a + [c] + b, c) == Some((a, b))
  {
    var s := a + [c] + b;
    if a == [] {
      assert s == [c] + b;
    } else {
      assert s[1..] == a[1..] + [c] + b;
      SplitAtFirst(a[1..], c, b);
      assert [a[0]] + a[1..] == a;
    }
  }

  /** What was written line by line is read line by line. */
  lemma {:induction false} SplitUndoesJoin(lines: seq<string>)
    requires forall l :: l in lines ==> '\n' !in l
    ensures SplitLines(JoinLines(lines)) == lines
  {
    if lines != [] {
      var rest := JoinLines(lines[1..]);
      assert JoinLines(lines) == lines[0] + ['\n'] + rest;
      SplitAtFirst(lines[0], '\n', rest);
      SplitUndoesJoin(lines[1..]);
    }
  }

  /** conf_read_simple for the file's text: every user value is forgotten first. */
  function LoadFile(names: Names, prefix: string, text: string): UserValues {
    LoadLines(names, prefix, map[], SplitLines(text))
  }

  // ---------- a line survives ----------

  /** No character that means something in a configuration file. */
  predicate PlainName(n: string) {
    '=' !in n && ' ' !in n && '\n' !in n && '#' !in n
  }

  /** The value conf_read_simple stores for a symbol of this type with this string value. */
  function Saved(s: Symbol, str: string): SymVal {
    if s.IsLogical() then SymVal("", if str == "y" then YES else if str == "m" then MOD else NO)
    else SymVal(str, NO)
  }

  /** The strings a symbol of each type can have, and have saved. */
  predicate Savable(s: Symbol, str: string) {
    match s.Type()
    case Unknown => false
    case Boolean => str == "y" || str == "n"
    case Tristate => str == "y" || str == "m" || str == "n"
    case String => '\n' !in str
    case Int => ValidInt(str)
    case Hex => ValidHex(str)
  }

  /** The text of a value as it is read: a carriage return at the end of the line is dropped, which a quoted string
      does not have. */
  function TextRead(s: Symbol, str: string): string {
    if s.Type().Int? || s.Type().Hex? then DropCarriageReturn(str) else str
  }

  /** The value s gets from its line, if it is one s can have. */
  function ValueRead(s: Symbol, str: string): Option<SymVal> {
    if Savable(s, TextRead(s, str)) then Some(Saved(s, TextRead(s, str))) else None
  }

  lemma SavableIsRead(s: Symbol, str: string)
    requires Savable(s, str)
    ensures TextRead(s, str) == str && ValueRead(s, str) == Some(Saved(s, str))
  {
    if s.Type().Int? || s.Type().Hex? {
      SavedTextIsRead(s, str);
    }
  }

  lemma UnsetLineIsRead(prefix: string, name: string)
    requires PlainName(prefix) && PlainName(name)
    ensures ParseLine(prefix, "# " + prefix + name + " " + NOT_SET) == Unset(name)
  {
    var line := "# " + prefix + name + " " + NOT_SET;
    assert line[2..] == prefix + (name + " " + NOT_SET);
    assert line[2..][..|prefix|] == prefix;
    assert line[2 + |prefix|..] == name + [' '] + NOT_SET;
    SplitAtFirst(name, ' ', NOT_SET);
    assert NOT_SET[..|NOT_SET|] == NOT_SET;
  }

  lemma AssignedLineIsRead(prefix: string, name: string, text: string)
    requires PlainName(prefix) && PlainName(name)
    ensures ParseLine(prefix, prefix + name + "=" + text) == Assigned(name, DropCarriageReturn(text))
  {
    var line := prefix + name + "=" + text;
    assert line[..|prefix|] == prefix;
    assert line[|prefix|..] == name + ['='] + text;
    SplitAtFirst(name, '=', text);
    if prefix != [] {
      assert line[0] == prefix[0];
    } else if name != [] {
      assert line[0] == name[0];
    } else {
      assert line[0] == '=';
    }
  }

  lemma {:induction false} EscapeAddsNoLineFeed(s: string, c: char)
    requires c !in s && c != '\\'
    ensures c !in EscapeBody(s)
  {
    if s != [] {
      EscapeAddsNoLineFeed(s[1..], c);
    }
  }

  lemma SavedTextIsRead(s: Symbol, str: string)
    requires Savable(s, str) && !(s.IsLogical() && str[0] == 'n')
    ensures var text := if s.Type().String? then Escape(str) else str;
            ReadValue(s.Type(), DropCarriageReturn(text)) == Some(Saved(s, str)) && '\n' !in text
  {
    match s.Type()
    case String =>
      var text := Escape(str);
      assert text[|text| - 1] == '"';
      assert text[1..] == EscapeBody(str) + "\"" + [];
      UnescapeUndoesEscape(str, []);
      EscapeAddsNoLineFeed(str, '\n');
    case Int =>
      assert str[0..] == str;
      NumberHoldsNoControl(str, if str[0] == '-' then 1 else 0);
    case Hex =>
      assert str[0..] == str;
      NumberHoldsNoControl(str, if HasHexPrefix(str) then 2 else 0);
    case _ =>
  }

  lemma NumberHoldsNoControl(s: string, k: nat)
    requires k <= |s| && HexDigits(s[k..]) && '\n' !in s[..k]
    ensures '\n' !in s && s[|s| - 1] != '\r'
  {
    DigitsHoldNoControl(s[..k], s[k..]);
    assert s == s[..k] + s[k..];
  }

  lemma DigitsHoldNoControl(p: string, t: string)
    requires HexDigits(t) && '\n' !in p
    ensures '\n' !in p + t && (p + t)[|p + t| - 1] != '\r'
  {
    assert IsHexDigit(t[|t| - 1]);
    forall i | 0 <= i < |t| ensures t[i] != '\n' {
      assert IsHexDigit(t[i]);
    }
  }

  /** Whatever line is written for a symbol, reading it gives the symbol its value back and touches
      no other symbol. */
  lemma LineRoundTrip(names: Names, prefix: string, user: UserValues, s: Symbol, str: string)
    requires PlainName(prefix) && PlainName(NameOf(s)) && ProperNames(names)
    requires s.Config? && s.name in names && names[s.name] == s && Savable(s, str)
    requires s in user ==> user[s].str == ""
    ensures SymbolLine(prefix, s, str, false).Some?
    ensures var line := SymbolLine(prefix, s, str, false).value;
            '\n' !in line && LoadLine(names, prefix, user, line) == user[s := Saved(s, str)]
  {
    var line := SymbolLine(prefix, s, str, false).value;
    if s.IsLogical() && str[0] == 'n' {
      UnsetLineIsRead(prefix, s.name);
    } else {
      SavedTextIsRead(s, str);
      AssignedLineIsRead(prefix, s.name, if s.Type().String? then Escape(str) else str);
    }
  }

  /** Reading back any line that was written, even one whose value no symbol of its type can have. */
  lemma LineIsRead(names: Names, prefix: string, user: UserValues, s: Symbol, str: string)
    requires PlainName(prefix) && PlainName(NameOf(s)) && ProperNames(names)
    requires s.Config? && s.name in names && names[s.name] == s && !s.Type().Unknown? && s !in user && '\n' !in str
    requires s.IsLogical() ==> Savable(s, str)
    ensures SymbolLine(prefix, s, str, false).Some?
    ensures var line := SymbolLine(prefix, s, str, false).value;
            && '\n' !in line
            && LoadLine(names, prefix, user, line)
               == if ValueRead(s, str).Some? then user[s := ValueRead(s, str).value] else user
  {
    if Savable(s, str) {
      SavableIsRead(s, str);
      LineRoundTrip(names, prefix, user, s, str);
    } else {
      AssignedLineIsRead(prefix, s.name, str);
    }
  }

  // ---------- which texts are numbers ----------

  /** For an int the decimal numbers as they are printed, and -0. */
  lemma ValidIntIsShown(s: string)
    ensures ValidInt(s) <==> s == "-0" || exists n :: ShowDecimal(n) == s
  {
    if ValidInt(s) {
      var digits := if s[0] == '-' then s[1..] else s;
      ShownFromDigits(digits);
      var n: int := Digits(digits, 10, 0);
      if s[0] == '-' {
        assert s == "-" + digits;
        assert n > 0 ==> ShowDecimal(-n) == s;
      } else {
        assert ShowDecimal(n) == s;
      }
    }
    forall n | ShowDecimal(n) == s ensures ValidInt(s) {
      ShownIsValidInt(n);
    }
  }

  lemma ShownIsValidInt(n: int)
    ensures ValidInt(ShowDecimal(n))
  {
    var m: nat := if n < 0 then -n else n;
    DigitsOfShown(m, 10);
    LeadingDigit(m);
    var s := ShowNat(m, 10);
    assert DigitValue(s[0]) != -1;
    if n < 0 {
      assert ("-" + s)[1..] == s;
    }
  }

  /** A zero in front only for zero itself. */
  lemma {:induction false} LeadingDigit(m: nat)
    ensures ShowNat(m, 10) != [] && (ShowNat(m, 10)[0] == '0' ==> m == 0 && ShowNat(m, 10) == "0")
  {
    if m >= 10 {
      LeadingDigit(m / 10);
    }
  }

  /** For a hex symbol one hexadecimal digit or more, with or without 0x in front. */
  lemma ValidHexIsDigits(s: string)
    ensures ValidHex(s) <==>
              var digits := if HasHexPrefix(s) then s[2..] else s;
              digits != [] && forall i :: 0 <= i < |digits| ==> IsDigit(digits[i], 16)
  {
    var digits := if HasHexPrefix(s) then s[2..] else s;
    forall i | 0 <= i < |digits| ensures IsHexDigit(digits[i]) <==> IsDigit(digits[i], 16) {
    }
  }

  lemma ShownIsValidHex(n: int)
    ensures ValidHex(ShowHex(n))
  {
    DigitsOfShown(n % 0x1_0000_0000_0000_0000, 16);
    var s := ShowHex(n);
    assert s[0] == '0' && s[1] == 'x' && s[2..] == ShowNat(n % 0x1_0000_0000_0000_0000, 16);
    ValidHexIsDigits(s);
  }

  // ---------- which lines mean something ----------

  lemma {:induction false} SplitAtExactly(s: string, c: char, a: string, b: string)
    ensures SplitAt(s, c) == Some((a, b)) <==> c !in a && s == a + [c] + b
  {
    if c !in a && s == a + [c] + b {
      SplitAtFirst(a, c, b);
    }
    if SplitAt(s, c) == Some((a, b)) {
      SplitAtSplits(s, c);
    }
  }

  lemma {:induction false} SplitAtSplits(s: string, c: char)
    ensures SplitAt(s, c).Some? ==> var (a, b) := SplitAt(s, c).value; c !in a && s == a + [c] + b
  {
    if s != [] && s[0] != c {
      SplitAtSplits(s[1..], c);
      if SplitAt(s, c).Some? {
        var (a, b) := SplitAt(s[1..], c).value;
        assert s == [s[0]] + s[1..];
        assert [s[0]] + (a + [c] + b) == ([s[0]] + a) + [c] + b;
      }
    } else if s != [] {
      assert s == [] + [c] + s[1..];
    }
  }

  lemma BeginningIsPrefix(s: string, p: string, q: string)
    ensures StartsWith(s, p + q) ==> StartsWith(s, p)
  {
    if StartsWith(s, p + q) {
      assert s[..|p|] == s[..|p + q|][..|p|];
    }
  }

  /** A line unsets a symbol exactly if it is a comment that says so. */
  lemma UnsetExactly(prefix: string, line: string, name: string)
    ensures ParseLine(prefix, line) == Unset(name)
       <==> ' ' !in name && |line| >= 2 && line[0] == '#' && StartsWith(line[2..], prefix + name + " " + NOT_SET)
  {
    hide SplitAt, StartsWith;
    if ParseLine(prefix, line) == Unset(name) {
      UnsetSays(prefix, line, name);
    }
    if ' ' !in name && |line| >= 2 && line[0] == '#' && StartsWith(line[2..], prefix + name + " " + NOT_SET) {
      SaidIsUnset(prefix, line, name);
    }
  }

  lemma UnsetSays(prefix: string, line: string, name: string)
    requires ParseLine(prefix, line) == Unset(name)
    ensures ' ' !in name && |line| >= 2 && line[0] == '#' && StartsWith(line[2..], prefix + name + " " + NOT_SET)
  {
    var rest := line[2..];
    var said := rest[|prefix|..];
    SplitAtSplits(said, ' ');
    var b := SplitAt(said, ' ').value.1;
    assert said == name + [' '] + b && b == NOT_SET + b[|NOT_SET|..];
    assert rest == prefix + said;
    assert rest == (prefix + name + " " + NOT_SET) + b[|NOT_SET|..];
  }

  lemma SaidIsUnset(prefix: string, line: string, name: string)
    requires ' ' !in name && |line| >= 2 && line[0] == '#' && StartsWith(line[2..], prefix + name + " " + NOT_SET)
    ensures ParseLine(prefix, line) == Unset(name)
  {
    var rest := line[2..];
    var end := rest[|prefix + name + " " + NOT_SET|..];
    assert prefix + (name + " " + NOT_SET) == prefix + name + " " + NOT_SET;
    BeginningIsPrefix(rest, prefix, name + " " + NOT_SET);
    assert rest == prefix + name + " " + NOT_SET + end;
    assert rest[|prefix|..] == name + [' '] + (NOT_SET + end);
    SplitAtFirst(name, ' ', NOT_SET + end);
  }

  /** A line assigns to a symbol exactly if it is no comment and has its name, after the prefix, in front of a =. What
      is assigned is the rest, without a carriage return at its end. */
  lemma AssignedExactly(prefix: string, line: string, name: string, text: string)
    ensures ParseLine(prefix, line) == Assigned(name, text)
       <==> '=' !in name && (line == [] || line[0] != '#') && Assigns(prefix, line, name, text)
  {
    hide DropCarriageReturn;
    if ParseLine(prefix, line) == Assigned(name, text) {
      AssignedSplits(prefix, line, name, text);
    }
    if '=' !in name && (line == [] || line[0] != '#') && Assigns(prefix, line, name, text) {
      var end :| line == prefix + name + "=" + end && text == DropCarriageReturn(end);
      assert line[..|prefix|] == prefix && line[|prefix|..] == name + ['='] + end;
      SplitAtFirst(name, '=', end);
    }
  }

  ghost predicate Assigns(prefix: string, line: string, name: string, text: string) {
    exists end :: line == prefix + name + "=" + end && text == DropCarriageReturn(end)
  }

  lemma AssignedSplits(prefix: string, line: string, name: string, text: string)
    requires ParseLine(prefix, line) == Assigned(name, text)
    ensures '=' !in name && (line == [] || line[0] != '#') && Assigns(prefix, line, name, text)
  {
    hide DropCarriageReturn;
    SplitAtSplits(line[|prefix|..], '=');
    var end := SplitAt(line[|prefix|..], '=').value.1;
    assert line == prefix + line[|prefix|..] == prefix + (name + ['='] + end);
    assert line == prefix + name + "=" + end;
  }

  lemma CarriageReturnDropped(s: string)
    ensures DropCarriageReturn(s + "\r") == s
    ensures (s == [] || s[|s| - 1] != '\r') ==> DropCarriageReturn(s) == s
  {
    assert (s + "\r")[..|s|] == s;
  }

  /** A symbol only gets values of its type, and a line changes nothing else. */
  lemma LoadLineFits(names: Names, prefix: string, user: UserValues, line: string, s: Symbol)
    requires ProperNames(names)
    ensures var user' := LoadLine(names, prefix, user, line);
            UserOf(user', s) != UserOf(user, s) ==>
              && user'.Keys == user.Keys + {s}
              && s.Config? && s.name in names && names[s.name] == s && !s.Type().Unknown?
              && (s.Type().Boolean? ==> user'[s].tri != MOD)
              && (s.Type().Int? ==> ValidInt(user'[s].str))
              && (s.Type().Hex? ==> ValidHex(user'[s].str))
    ensures forall t :: UserOf(LoadLine(names, prefix, user, line), s) != UserOf(user, s) && t != s ==>
              UserOf(LoadLine(names, prefix, user, line), t) == UserOf(user, t)
  {
    hide ParseLine, ValidInt, ValidHex, Unescaped;
  }
}
