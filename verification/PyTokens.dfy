/** The text of expressions in support/scripts/kconfiglib.py: what printing joins together, and how the
    tokenizer takes it apart again. */
module PyTokens {
  import opened Tristates
  import opened Exprs
  import opened Configuration
  import opened PyExprs
  import opened PyParser
  import opened PyPrinter

  /** `\s` */
  predicate IsSpace(c: char) {
    c in " \t\n\r" || c as int == 11 || c as int == 12
  }

  /** `[\w./-]`, for ASCII */
  predicate IsIdChar(c: char) {
    'a' <= c <= 'z' || 'A' <= c <= 'Z' || '0' <= c <= '9' || c in "_./-"
  }

  const KEYWORDS: set<string> := {
    "mainmenu", "menu", "endmenu", "endif", "endchoice", "source", "choice", "config", "comment", "menuconfig", "help",
    "if", "depends", "on", "optional", "prompt", "default", "bool", "boolean", "tristate", "int", "hex", "def_bool",
    "def_tristate", "string", "select", "range", "option", "allnoconfig_y", "env", "defconfig_list", "modules",
    "visible"
  }

  /** After these keywords a name is a string. */
  const STRING_LEX: set<string> := {
    "bool", "boolean", "tristate", "int", "hex", "string", "choice", "prompt", "menu", "comment", "source", "mainmenu"
  }

  predicate TakesString(previous: Option<Token>) {
    previous.Some? && previous.value.Keyword? && previous.value.name in STRING_LEX
  }

  function SkipSpaces(s: string): (r: string)
    ensures |r| <= |s|
  {
    if s != [] && IsSpace(s[0]) then SkipSpaces(s[1..]) else s
  }

  /** The length of the name at the beginning of s. */
  function IdLength(s: string): (n: nat)
    ensures n <= |s|
  {
    if s != [] && IsIdChar(s[0]) then 1 + IdLength(s[1..]) else 0
  }

  /** The contents of a string literal up to the closing quote, and what follows it; a backslash takes
      the next character literally. */
  function Quoted(quote: char, s: string): (r: Option<(string, string)>)
    ensures r.Some? ==> |r.value.1| < |s|
    decreases |s|
  {
    if s == [] then None
    else if s[0] == quote then Some(([], s[1..]))
    else if s[0] == '\\' && |s| == 1 then None
    else
      var (c, rest) := if s[0] == '\\' then (s[1], s[2..]) else (s[0], s[1..]);
      match Quoted(quote, rest)
      case None => None
      case Some((more, end)) => Some(([c] + more, end))
  }

  /** What a name is: a keyword, a string after certain keywords, else a symbol. */
  function NameToken(lookup: string -> Symbol, previous: Option<Token>, name: string): Token {
    if name in KEYWORDS then Keyword(name)
    else if TakesString(previous) then Operand(AStr(name))
    else Operand(ASym(lookup(name)))
  }

  /** One step on text that starts with something else than a space or a name: the token, if any, and
      the rest of the text. */
  function Symbolic(s: string): (r: Option<(Option<Token>, string)>)
    requires s != []
    ensures r.Some? ==> |r.value.1| < |s|
  {
    var c, rest := s[0], s[1..];
    if c == '"' || c == '\'' then
      match Quoted(c, rest)
      case None => None
      case Some((str, end)) => Some((Some(Operand(AStr(str))), end))
    else if c == '&' then
      if rest != [] && rest[0] == '&' then Some((Some(And), rest[1..])) else Some((None, rest))
    else if c == '|' then
      if rest != [] && rest[0] == '|' then Some((Some(Or), rest[1..])) else Some((None, rest))
    else if c == '!' then
      if rest != [] && rest[0] == '=' then Some((Some(Differs), rest[1..])) else Some((Some(Bang), rest))
    else if c == '=' then Some((Some(Equals), rest))
    else if c == '(' then Some((Some(Open), rest))
    else if c == ')' then Some((Some(Close), rest))
    else if c == '#' then Some((None, []))
    else Some((None, rest))
  }

  function PrependToken(t: Token, ts: Option<seq<Token>>): Option<seq<Token>> {
    if ts.Some? then Some([t] + ts.value) else None
  }

  /** The main loop of _tokenize; None is a tokenization error. */
  function Lex(lookup: string -> Symbol, previous: Option<Token>, s: string): Option<seq<Token>>
    decreases |s|
  {
    var t := SkipSpaces(s);
    if t == [] then Some([])
    else if IsIdChar(t[0]) then
      var n := IdLength(t);
      var token := NameToken(lookup, previous, t[..n]);
      PrependToken(token, Lex(lookup, Some(token), t[n..]))
    else
      match Symbolic(t)
      case None => None
      case Some((None, rest)) => Lex(lookup, previous, rest)
      case Some((Some(token), rest)) => PrependToken(token, Lex(lookup, Some(token), rest))
  }

  // ---------- the text of tokens ----------

  /** The piece of text _expr_to_str_rec produces for a token. */
  function TokenText(t: Token): string {
    match t
    case Operand(a) => if a.ASym? then NameOf(a.sym) else "\"" + a.str + "\""
    case Open => "("
    case Close => ")"
    case Bang => "!"
    case And => " && "
    case Or => " || "
    case Equals => " = "
    case Differs => " != "
    case Keyword(name) => name
  }

  /** "".join */
  function Join(ts: seq<Token>): string {
    if ts == [] then "" else TokenText(ts[0]) + Join(ts[1..])
  }

  /** _expr_to_str */
  function ExprToStr(e: PyExpr): string {
    Join(Print(e))
  }

  /** A symbol that is found under its name, or a string without quotes and backslashes. */
  predicate Writable(lookup: string -> Symbol, t: Token) {
    match t
    case Operand(ASym(s)) =>
      NameOf(s) != [] && IdLength(NameOf(s)) == |NameOf(s)| && NameOf(s) !in KEYWORDS && lookup(NameOf(s)) == s
    case Operand(AStr(str)) => '"' !in str && '\\' !in str
    case Keyword(_) => false
    case _ => true
  }

  predicate AllWritable(lookup: string -> Symbol, ts: seq<Token>) {
    forall i :: 0 <= i < |ts| ==> Writable(lookup, ts[i])
  }

  /** No two operands side by side. */
  predicate Apart(ts: seq<Token>) {
    forall i :: 0 <= i < |ts| - 1 ==> !(ts[i].Operand? && ts[i + 1].Operand?)
  }

  // ---------- taking the text apart ----------

  lemma {:induction false} IdRunEnds(name: string, rest: string)
    requires IdLength(name) == |name| && (rest == [] || !IsIdChar(rest[0]))
    ensures IdLength(name + rest) == |name|
  {
    if name == [] {
      assert name + rest == rest;
    } else {
      assert (name + rest)[1..] == name[1..] + rest;
      IdRunEnds(name[1..], rest);
    }
  }

  lemma {:induction false} QuotedReadsBack(str: string, rest: string)
    requires '"' !in str && '\\' !in str
    ensures Quoted('"', str + ("\"" + rest)) == Some((str, rest))
  {
    if str == [] {
      assert str + ("\"" + rest) == "\"" + rest;
      assert ("\"" + rest)[1..] == rest;
    } else {
      assert (str + ("\"" + rest))[1..] == str[1..] + ("\"" + rest);
      QuotedReadsBack(str[1..], rest);
      assert [str[0]] + str[1..] == str;
    }
  }

  /** A string as it is written between quotes. */
  function Protected(quote: char, str: string): string {
    if str == [] then ""
    else (if str[0] == quote || str[0] == '\\' then "\\" else "") + [str[0]] + Protected(quote, str[1..])
  }

  /** With a backslash in front of each quote and backslash, any string is read back. */
  lemma {:induction false} ProtectedReadsBack(quote: char, str: string, rest: string)
    requires quote != '\\'
    ensures Quoted(quote, Protected(quote, str) + [quote] + rest) == Some((str, rest))
  {
    var s := Protected(quote, str) + [quote] + rest;
    if str == [] {
      assert s == [quote] + rest;
    } else {
      var c, more := str[0], Protected(quote, str[1..]) + [quote] + rest;
      assert s == (if c == quote || c == '\\' then "\\" else "") + [c] + more;
      ProtectedReadsBack(quote, str[1..], rest);
      assert [c] + str[1..] == str;
    }
  }

  /** The text after an operand does not continue it. */
  lemma AfterOperand(lookup: string -> Symbol, ts: seq<Token>)
    requires AllWritable(lookup, ts) && (ts != [] ==> !ts[0].Operand?)
    ensures Join(ts) == [] || !IsIdChar(Join(ts)[0])
  {
  }

  /** No token's text starts with =, so ! before it stays by itself. */
  lemma NoEqualsFirst(lookup: string -> Symbol, ts: seq<Token>)
    requires AllWritable(lookup, ts)
    ensures Join(ts) == [] || Join(ts)[0] != '='
  {
    if ts != [] && ts[0].Operand? && ts[0].atom.ASym? {
      assert Writable(lookup, ts[0]);
      assert IsIdChar(NameOf(ts[0].atom.sym)[0]);
    }
  }

  lemma SpaceSkipped(lookup: string -> Symbol, previous: Option<Token>, s: string)
    ensures Lex(lookup, previous, " " + s) == Lex(lookup, previous, s)
  {
    assert (" " + s)[1..] == s;
    assert SkipSpaces(" " + s) == SkipSpaces(s);
  }

  /** Tokenizing the joined text gives back the tokens. */
  lemma {:induction false} LexReadsBack(lookup: string -> Symbol, previous: Option<Token>, ts: seq<Token>)
    requires AllWritable(lookup, ts) && Apart(ts) && !TakesString(previous)
    ensures Lex(lookup, previous, Join(ts)) == Some(ts)
    decreases |ts|
  {
    if ts != [] {
      var t, rest := ts[0], Join(ts[1..]);
      assert ts == [t] + ts[1..] && Writable(lookup, t);
      LexReadsBack(lookup, Some(t), ts[1..]);
      OneToken(lookup, previous, t, ts[1..]);
    }
  }

  lemma OneToken(lookup: string -> Symbol, previous: Option<Token>, t: Token, ts: seq<Token>)
    requires Writable(lookup, t) && AllWritable(lookup, ts) && Apart([t] + ts) && !TakesString(previous)
    ensures Lex(lookup, previous, TokenText(t) + Join(ts)) == PrependToken(t, Lex(lookup, Some(t), Join(ts)))
  {
    hide Lex, Symbolic, KEYWORDS, Join;
    var rest := Join(ts);
    match t
    case Operand(ASym(s)) =>
      assert ts != [] ==> ([t] + ts)[0] == t && ([t] + ts)[1] == ts[0];
      AfterOperand(lookup, ts);
      LexName(lookup, previous, NameOf(s), rest);
    case Operand(AStr(str)) =>
      LexString(lookup, previous, str, rest);
    case Open => LexOperator(lookup, previous, "(", t, rest);
    case Close => LexOperator(lookup, previous, ")", t, rest);
    case Bang =>
      NoEqualsFirst(lookup, ts);
      LexOperator(lookup, previous, "!", t, rest);
    case And =>
      assert " && " == " " + "&&" + " ";
      LexSpaced(lookup, previous, "&&", t, rest);
    case Or =>
      assert " || " == " " + "||" + " ";
      LexSpaced(lookup, previous, "||", t, rest);
    case Equals =>
      assert " = " == " " + "=" + " ";
      LexSpaced(lookup, previous, "=", t, rest);
    case Differs =>
      assert " != " == " " + "!=" + " ";
      LexSpaced(lookup, previous, "!=", t, rest);
  }

  lemma LexName(lookup: string -> Symbol, previous: Option<Token>, name: string, rest: string)
    requires name != [] && IdLength(name) == |name| && (rest == [] || !IsIdChar(rest[0]))
    ensures var t := NameToken(lookup, previous, name);
            Lex(lookup, previous, name + rest) == PrependToken(t, Lex(lookup, Some(t), rest))
  {
    hide KEYWORDS, STRING_LEX;
    var s := name + rest;
    assert IsIdChar(s[0]) && SkipSpaces(s) == s;
    IdRunEnds(name, rest);
    assert s[..|name|] == name && s[|name|..] == rest;
  }

  lemma LexString(lookup: string -> Symbol, previous: Option<Token>, str: string, rest: string)
    requires '"' !in str && '\\' !in str
    ensures var t := Operand(AStr(str));
            Lex(lookup, previous, "\"" + str + "\"" + rest) == PrependToken(t, Lex(lookup, Some(t), rest))
  {
    var s := "\"" + str + "\"" + rest;
    assert s[0] == '"' && s[1..] == str + ("\"" + rest) && SkipSpaces(s) == s;
    QuotedReadsBack(str, rest);
  }

  /** What follows # is not read, and a character that begins no token is ignored. */
  lemma OtherTextIsIgnored(lookup: string -> Symbol, previous: Option<Token>, c: char, s: string)
    ensures c == '#' ==> Lex(lookup, previous, [c] + s) == Some([])
    ensures !IsIdChar(c) && c !in "\"'&|!=()#" ==> Lex(lookup, previous, [c] + s) == Lex(lookup, previous, s)
    ensures c in "&|" && (s == [] || s[0] != c) ==> Lex(lookup, previous, [c] + s) == Lex(lookup, previous, s)
  {
    assert ([c] + s)[1..] == s;
    if IsSpace(c) {
      assert SkipSpaces([c] + s) == SkipSpaces(s);
    }
  }

  /** A name is a string after the keywords that take one, and otherwise the symbol of that name. */
  lemma NamesAfterKeywords(lookup: string -> Symbol, k: string, name: string)
    requires k in KEYWORDS && k != [] && IdLength(k) == |k|
    requires name !in KEYWORDS && name != [] && IdLength(name) == |name|
    ensures Lex(lookup, None, k + " " + name)
         == Some([Keyword(k), Operand(if k in STRING_LEX then AStr(name) else ASym(lookup(name)))])
  {
    hide KEYWORDS, STRING_LEX, Lex, IdLength;
    var t, u := Keyword(k), NameToken(lookup, Some(Keyword(k)), name);
    assert k + " " + name == k + (" " + name) && name + "" == name;
    LexName(lookup, None, k, " " + name);
    SpaceSkipped(lookup, Some(t), name);
    LexName(lookup, Some(t), name, "");
    NothingIsLeft(lookup, Some(u));
    assert [u] + [] == [u] && [t] + [u] == [t, u];
  }

  lemma NothingIsLeft(lookup: string -> Symbol, previous: Option<Token>)
    ensures Lex(lookup, previous, "") == Some([])
  {
  }

  /** An operator with a space on either side. */
  lemma LexSpaced(lookup: string -> Symbol, previous: Option<Token>, op: string, t: Token, rest: string)
    requires IsOperator(op, t) && !t.Bang?
    ensures Lex(lookup, previous, " " + op + " " + rest) == PrependToken(t, Lex(lookup, Some(t), rest))
  {
    hide *;
    var s := op + (" " + rest);
    assert " " + op + " " + rest == " " + s;
    SpaceSkipped(lookup, previous, s);
    SpaceSkipped(lookup, Some(t), rest);
    LexOperator(lookup, previous, op, t, " " + rest);
  }

  /** The operators as they are written. */
  predicate IsOperator(op: string, t: Token) {
    match t
    case Open => op == "("
    case Close => op == ")"
    case Bang => op == "!"
    case And => op == "&&"
    case Or => op == "||"
    case Equals => op == "="
    case Differs => op == "!="
    case _ => false
  }

  lemma SymbolicOperator(op: string, t: Token, rest: string)
    requires IsOperator(op, t) && (t.Bang? ==> rest == [] || rest[0] != '=')
    ensures Symbolic(op + rest) == Some((Some(t), rest))
    ensures SkipSpaces(op + rest) == op + rest && !IsIdChar((op + rest)[0])
  {
    hide Quoted;
    var s := op + rest;
    match t
    case Open => assert s[0] == '(' && s[1..] == rest;
    case Close => assert s[0] == ')' && s[1..] == rest;
    case Bang => assert s[0] == '!' && s[1..] == rest;
    case And => assert s[0] == '&' && s[1..][0] == '&' && s[1..][1..] == rest;
    case Or => assert s[0] == '|' && s[1..][0] == '|' && s[1..][1..] == rest;
    case Equals => assert s[0] == '=' && s[1..] == rest;
    case Differs => assert s[0] == '!' && s[1..][0] == '=' && s[1..][1..] == rest;
  }

  lemma LexOperator(lookup: string -> Symbol, previous: Option<Token>, op: string, t: Token, rest: string)
    requires IsOperator(op, t) && (t.Bang? ==> rest == [] || rest[0] != '=')
    ensures Lex(lookup, previous, op + rest) == PrependToken(t, Lex(lookup, Some(t), rest))
  {
    SymbolicOperator(op, t, rest);
    hide Symbolic, KEYWORDS, SkipSpaces, IdLength, IsIdChar, NameToken;
  }

  // ---------- whole expressions ----------

  function DropSpaces(s: string): string {
    if s != [] && IsSpace(s[|s| - 1]) then DropSpaces(s[..|s| - 1]) else s
  }

  /** _tokenize with for_eval set: s.strip(), and nothing at all for a comment. */
  function Tokenized(lookup: string -> Symbol, s: string): Option<seq<Token>> {
    var t := DropSpaces(SkipSpaces(s));
    if t == [] || t[0] == '#' then Some([]) else Lex(lookup, None, t)
  }

  predicate Starts(t: Token) {
    t.Operand? || t.Open? || t.Bang?
  }

  predicate Ends(t: Token) {
    t.Operand? || t.Close?
  }

  /** What a printed expression looks like from outside. */
  predicate Framed(ts: seq<Token>) {
    ts != [] && Starts(ts[0]) && Ends(ts[|ts| - 1]) && Apart(ts)
  }

  lemma FramedParens(ts: seq<Token>)
    requires Framed(ts)
    ensures Framed([Open] + ts + [Close]) && Framed([Bang] + ts) && Framed([Bang] + ([Open] + ts + [Close]))
  {
    FramedAfter(Open, ts);
    FramedBefore([Open] + ts, Close);
    FramedAfter(Bang, ts);
    FramedAfter(Bang, [Open] + ts + [Close]);
  }

  lemma FramedAfter(t: Token, ts: seq<Token>)
    requires ts != [] && Ends(ts[|ts| - 1]) && Apart(ts) && Starts(t) && !t.Operand?
    ensures Framed([t] + ts)
  {
    forall i | 0 <= i < |ts| ensures !(([t] + ts)[i].Operand? && ([t] + ts)[i + 1].Operand?) {
      assert ([t] + ts)[i + 1] == ts[i];
      assert i > 0 ==> ([t] + ts)[i] == ts[i - 1];
    }
  }

  lemma FramedBefore(ts: seq<Token>, t: Token)
    requires ts != [] && Starts(ts[0]) && Apart(ts) && Ends(t) && !t.Operand?
    ensures Framed(ts + [t])
  {
    forall i | 0 <= i < |ts| ensures !((ts + [t])[i].Operand? && (ts + [t])[i + 1].Operand?) {
      assert i + 1 < |ts| ==> (ts + [t])[i + 1] == ts[i + 1];
    }
  }

  lemma FramedJoin(a: seq<Token>, op: Op, b: seq<Token>)
    requires Framed(a) && Framed(b)
    ensures Framed(a + ([OpToken(op)] + b))
  {
    var all := a + ([OpToken(op)] + b);
    forall i | 0 <= i < |all| - 1 ensures !(all[i].Operand? && all[i + 1].Operand?) {
      if i + 1 < |a| {
        assert all[i] == a[i] && all[i + 1] == a[i + 1];
      } else if i > |a| {
        assert all[i] == b[i - |a| - 1] && all[i + 1] == b[i - |a|];
      } else {
        assert all[|a|] == OpToken(op);
      }
    }
  }

  lemma {:induction false} PrintIsFramed(e: PyExpr)
    requires Built(e)
    ensures Framed(Print(e))
    decreases e, 0
  {
    match e
    case PNot(a) =>
      PrintIsFramed(a);
      FramedParens(Print(a));
    case PNary(op, ts) => ChainIsFramed(op, ts);
    case _ =>
  }

  lemma {:induction false} ChainIsFramed(op: Op, ts: seq<PyExpr>)
    requires ts != [] && AllBuilt(ts)
    ensures Framed(Intersperse(op, ts))
    decreases ts, 1
  {
    var first := if NoParens(op, ts[0]) then Print(ts[0]) else [Open] + Print(ts[0]) + [Close];
    PrintIsFramed(ts[0]);
    FramedParens(Print(ts[0]));
    if |ts| > 1 {
      ChainIsFramed(op, ts[1..]);
      FramedJoin(first, op, Intersperse(op, ts[1..]));
    }
  }

  lemma {:induction false} JoinEnds(lookup: string -> Symbol, ts: seq<Token>)
    requires ts != [] && AllWritable(lookup, ts) && Ends(ts[|ts| - 1])
    ensures Join(ts) != [] && !IsSpace(Join(ts)[|Join(ts)| - 1])
    decreases |ts|
  {
    hide KEYWORDS, Writable, TokenText, IsSpace, Ends;
    if |ts| > 1 {
      JoinEnds(lookup, ts[1..]);
    } else {
      assert Join(ts) == TokenText(ts[0]) && Writable(lookup, ts[0]);
      TextEnds(lookup, ts[0]);
    }
  }

  lemma TextEnds(lookup: string -> Symbol, t: Token)
    requires Writable(lookup, t) && Ends(t)
    ensures TokenText(t) != [] && !IsSpace(TokenText(t)[|TokenText(t)| - 1])
  {
    hide KEYWORDS;
    if t.Operand? && t.atom.ASym? {
      IdCharsOnly(NameOf(t.atom.sym), |NameOf(t.atom.sym)| - 1);
    }
  }

  lemma {:induction false} IdCharsOnly(name: string, i: nat)
    requires IdLength(name) == |name| && i < |name|
    ensures IsIdChar(name[i])
  {
    if i > 0 {
      IdCharsOnly(name[1..], i - 1);
    }
  }

  lemma JoinStarts(lookup: string -> Symbol, ts: seq<Token>)
    requires ts != [] && AllWritable(lookup, ts) && Starts(ts[0])
    ensures Join(ts) != [] && !IsSpace(Join(ts)[0]) && Join(ts)[0] != '#'
  {
    hide KEYWORDS;
    assert Writable(lookup, ts[0]);
  }

  /** The text of an expression whose symbols have proper names, and whose strings contain no quotes and
      no backslashes, is read back as the same expression, up to merging operands; its value is the
      same. */
  lemma TextIsReadBack(lookup: string -> Symbol, val: PyValues, e: PyExpr)
    requires Built(e) && AllWritable(lookup, Print(e)) && val(SymMod) == "m"
    ensures Tokenized(lookup, ExprToStr(e)) == Some(Print(e))
    ensures var r := ParseTokens(None, Tokenized(lookup, ExprToStr(e)).value);
            r == Ok((Flat(e), [])) && PyValue(val, r.value.0) == PyValue(val, e)
  {
    hide Lex, Join, Print, ParseTokens;
    PrintIsFramed(e);
    JoinStarts(lookup, Print(e));
    JoinEnds(lookup, Print(e));
    LexReadsBack(lookup, None, Print(e));
    PrintedExpressionIsReadBack(val, e, []);
    assert Print(e) + [] == Print(e);
  }

  // ---------- the tokenizer itself ----------

  /** Config._tokenize with for_eval set */
  method Tokenize(lookup: string -> Symbol, text: string) returns (r: Option<seq<Token>>)
    ensures r == Tokenized(lookup, text)
  {
    hide NameToken, Symbolic, IdLength, SkipSpaces, DropSpaces;
    var s := DropSpaces(SkipSpaces(text));
    if s == [] || s[0] == '#' {
      return Some([]);
    }
    var tokens: seq<Token> := [];
    var previous: Option<Token> := None;
    PrependNoTokens(Lex(lookup, None, s));
    while true
      invariant Lex(lookup, None, DropSpaces(SkipSpaces(text))) == PrependTokens(tokens, Lex(lookup, previous, s))
      invariant previous == if tokens == [] then None else Some(tokens[|tokens| - 1])
      decreases |s|
    {
      LexIgnoresSpaces(lookup, previous, s);
      s := SkipSpaces(s);
      SkippedTwice(s);
      if s == [] {
        break;
      }
      if IsIdChar(s[0]) {
        NameIsNotEmpty(s);
        var n := IdLength(s);
        var token := NameToken(lookup, previous, s[..n]);
        PrependInTurn(tokens, token, Lex(lookup, Some(token), s[n..]));
        tokens := tokens + [token];
        s := s[n..];
      } else {
        var step := Symbolic(s);
        if step == None {
          return None;
        }
        if step.value.0.Some? {
          PrependInTurn(tokens, step.value.0.value, Lex(lookup, step.value.0, step.value.1));
          tokens := tokens + [step.value.0.value];
        }
        s := step.value.1;
      }
      if tokens != [] {
        previous := Some(tokens[|tokens| - 1]);
      }
    }
    assert tokens + [] == tokens;
    r := Some(tokens);
  }

  function PrependTokens(ts: seq<Token>, more: Option<seq<Token>>): Option<seq<Token>> {
    if more.Some? then Some(ts + more.value) else None
  }

  lemma NameIsNotEmpty(s: string)
    requires s != [] && IsIdChar(s[0])
    ensures IdLength(s) > 0
  {
  }

  lemma PrependNoTokens(r: Option<seq<Token>>)
    ensures PrependTokens([], r) == r
  {
    assert r.Some? ==> [] + r.value == r.value;
  }

  lemma PrependInTurn(ts: seq<Token>, t: Token, more: Option<seq<Token>>)
    ensures PrependTokens(ts, PrependToken(t, more)) == PrependTokens(ts + [t], more)
  {
    assert more.Some? ==> ts + ([t] + more.value) == ts + [t] + more.value;
  }

  lemma {:induction false} SkippedTwice(s: string)
    ensures SkipSpaces(SkipSpaces(s)) == SkipSpaces(s)
  {
    if s != [] && IsSpace(s[0]) {
      SkippedTwice(s[1..]);
    }
  }

  lemma LexIgnoresSpaces(lookup: string -> Symbol, previous: Option<Token>, s: string)
    ensures Lex(lookup, previous, SkipSpaces(s)) == Lex(lookup, previous, s)
  {
    SkippedTwice(s);
  }
}
