/** The expression parser of support/scripts/kconfiglib.py: recursive descent over a token cursor. */
module PyParser {
  import opened Tristates
  import opened Exprs
  import opened Configuration
  import opened PyExprs

  /** A symbol or a string is a token of its own; every keyword is `Keyword`. */
  datatype Token = Operand(atom: Atom) | Open | Close | Bang | And | Or | Equals | Differs | Keyword(name: string)

  function OpToken(op: Op): Token {
    if op.AndOp? then And else Or
  }

  /** What _parse_error reports, and a = or != that is not followed by a symbol or string: there the
      original takes whatever comes next as the operand. */
  datatype SyntaxError = MissingParenthesis | Malformed | NoRightOperand

  datatype Result<+T> = Ok(value: T) | Err(error: SyntaxError)

  // ---------- what parsing yields, and the tokens it leaves ----------

  type Parsed<T> = Result<(T, seq<Token>)>

  function OperandExpr(a: Atom): PyExpr {
    if a.ASym? then PSym(a.sym) else PStr(a.str)
  }

  /** In a relation, the symbol m is taken as the string "m". */
  function RelOperand(a: Atom): Atom {
    if a == ASym(SymMod) then AStr("m") else a
  }

  /** An operand that stands alone. With transform_m, m becomes m && MODULES. */
  function AloneOperand(modules: Option<Symbol>, a: Atom): PyExpr {
    if modules.Some? && (a == ASym(SymMod) || a == AStr("m")) then PNary(AndOp, [PStr("m"), PSym(modules.value)])
    else OperandExpr(a)
  }

  function Collapse(op: Op, terms: seq<PyExpr>): PyExpr
    requires terms != []
  {
    if |terms| == 1 then terms[0] else PNary(op, terms)
  }

  predicate StartsWith(ts: seq<Token>, t: Token) {
    ts != [] && ts[0] == t
  }

  /** _parse_factor */
  function Factor(modules: Option<Symbol>, ts: seq<Token>): (r: Parsed<PyExpr>)
    ensures r.Ok? ==> |r.value.1| < |ts|
    decreases |ts|, 0
  {
    if StartsWith(ts, Open) then
      match Chain(modules, OrOp, ts[1..])
      case Err(error) => Err(error)
      case Ok((terms, rest)) =>
        if StartsWith(rest, Close) then Ok((Collapse(OrOp, terms), rest[1..])) else Err(MissingParenthesis)
    else if StartsWith(ts, Bang) then
      match Factor(modules, ts[1..])
      case Err(error) => Err(error)
      case Ok((e, rest)) => Ok((PNot(e), rest))
    else if ts == [] || !ts[0].Operand? then Err(Malformed)
    else if |ts| > 1 && (ts[1] == Equals || ts[1] == Differs) then
      if |ts| > 2 && ts[2].Operand?
      then Ok((PRel(ts[1] == Equals, RelOperand(ts[0].atom), RelOperand(ts[2].atom)), ts[3..]))
      else Err(NoRightOperand)
    else Ok((AloneOperand(modules, ts[0].atom), ts[1..]))
  }

  /** What && or || connects: factors, or chains of &&. */
  function Term(modules: Option<Symbol>, op: Op, ts: seq<Token>): (r: Parsed<PyExpr>)
    ensures r.Ok? ==> |r.value.1| < |ts|
    decreases |ts|, if op.AndOp? then 1 else 3
  {
    if op.AndOp? then Factor(modules, ts)
    else
      match Chain(modules, AndOp, ts)
      case Err(error) => Err(error)
      case Ok((terms, rest)) => Ok((Collapse(AndOp, terms), rest))
  }

  /** The operands of a chain of && or ||: at least one, and more as long as the operator follows. */
  function Chain(modules: Option<Symbol>, op: Op, ts: seq<Token>): (r: Parsed<seq<PyExpr>>)
    ensures r.Ok? ==> |r.value.1| < |ts| && r.value.0 != []
    decreases |ts|, if op.AndOp? then 2 else 4
  {
    match Term(modules, op, ts)
    case Err(error) => Err(error)
    case Ok((e, rest)) => Prepend(e, More(modules, op, rest))
  }

  function More(modules: Option<Symbol>, op: Op, ts: seq<Token>): (r: Parsed<seq<PyExpr>>)
    ensures r.Ok? ==> |r.value.1| <= |ts|
    decreases |ts|, 5
  {
    if StartsWith(ts, OpToken(op)) then Chain(modules, op, ts[1..]) else Ok(([], ts))
  }

  function Prepend(e: PyExpr, r: Parsed<seq<PyExpr>>): Parsed<seq<PyExpr>> {
    if r.Err? then r else Ok(([e] + r.value.0, r.value.1))
  }

  /** _parse_expr_2 */
  function ParseTokens(modules: Option<Symbol>, ts: seq<Token>): Parsed<PyExpr> {
    match Chain(modules, OrOp, ts)
    case Err(error) => Err(error)
    case Ok((terms, rest)) => Ok((Collapse(OrOp, terms), rest))
  }

  // ---------- the parser itself ----------

  /** _Feed */
  class Feed {
    const items: seq<Token>
    var i: nat

    constructor (items: seq<Token>)
      ensures this.items == items && i == 0
    {
      this.items := items;
      i := 0;
    }

    ghost predicate Valid()
      reads this
    {
      i <= |items|
    }

    /** What has not been taken yet. */
    ghost function Rest(): seq<Token>
      reads this
      requires Valid()
    {
      items[i..]
    }

    method GetNext() returns (t: Option<Token>)
      requires Valid()
      modifies this
      ensures Valid()
      ensures old(Rest()) == [] ==> t == None && Rest() == []
      ensures old(Rest()) != [] ==> t == Some(old(Rest())[0]) && Rest() == old(Rest())[1..]
    {
      if i >= |items| {
        return None;
      }
      t := Some(items[i]);
      i := i + 1;
    }

    method PeekNext() returns (t: Option<Token>)
      requires Valid()
      ensures t == if Rest() == [] then None else Some(Rest()[0])
    {
      t := if i >= |items| then None else Some(items[i]);
    }

    method Check(token: Token) returns (found: bool)
      requires Valid()
      modifies this
      ensures Valid()
      ensures found == StartsWith(old(Rest()), token)
      ensures Rest() == if found then old(Rest())[1..] else old(Rest())
    {
      if i < |items| && items[i] == token {
        i := i + 1;
        return true;
      }
      found := false;
    }
  }

  /** The parser has done what the grammar says: the same expression and the same tokens left, or the
      same error. */
  ghost predicate Agrees<T(!new)>(spec: Parsed<T>, r: Result<T>, rest: seq<Token>) {
    if spec.Ok? then r == Ok(spec.value.0) && rest == spec.value.1 else r == Err(spec.error)
  }

  /** Config._parse_expr_2 */
  method ParseExpr2(modules: Option<Symbol>, feed: Feed) returns (r: Result<PyExpr>)
    requires feed.Valid()
    modifies feed
    ensures feed.Valid()
    ensures Agrees(ParseTokens(modules, old(feed.Rest())), r, feed.Rest())
    decreases |feed.Rest()|, 4
  {
    ghost var spec := Chain(modules, OrOp, feed.Rest());
    ChainStep(modules, OrOp, [], feed.Rest());
    assert spec.Ok? ==> [] + spec.value.0 == spec.value.0;
    var term := ParseOrTerm(modules, feed);
    if term.Err? {
      return Err(term.error);
    }
    var orTerms := [term.value];
    assert [] + [term.value] == orTerms;
    var more := feed.Check(Or);
    while more
      invariant feed.Valid() && orTerms != [] && |feed.Rest()| < |old(feed.Rest())|
      invariant spec == PrependAll(orTerms, if more then Chain(modules, OrOp, feed.Rest()) else Ok(([], feed.Rest())))
      decreases |feed.Rest()|, more
    {
      ChainStep(modules, OrOp, orTerms, feed.Rest());
      term := ParseOrTerm(modules, feed);
      if term.Err? {
        return Err(term.error);
      }
      orTerms := orTerms + [term.value];
      more := feed.Check(Or);
    }
    assert orTerms + [] == orTerms;
    r := Ok(if |orTerms| == 1 then orTerms[0] else PNary(OrOp, orTerms));
  }

  lemma ChainStep(modules: Option<Symbol>, op: Op, es: seq<PyExpr>, ts: seq<Token>)
    ensures var t := Term(modules, op, ts);
            PrependAll(es, Chain(modules, op, ts))
            == if t.Err? then Err(t.error) else PrependAll(es + [t.value.0], More(modules, op, t.value.1))
  {
    var t := Term(modules, op, ts);
    if t.Ok? && More(modules, op, t.value.1).Ok? {
      var (e, m) := (t.value.0, More(modules, op, t.value.1).value.0);
      assert es + ([e] + m) == es + [e] + m;
    }
  }

  ghost function PrependAll(es: seq<PyExpr>, r: Parsed<seq<PyExpr>>): Parsed<seq<PyExpr>> {
    if r.Err? then r else Ok((es + r.value.0, r.value.1))
  }

  /** Config._parse_or_term */
  method ParseOrTerm(modules: Option<Symbol>, feed: Feed) returns (r: Result<PyExpr>)
    requires feed.Valid()
    modifies feed
    ensures feed.Valid()
    ensures Agrees(Term(modules, OrOp, old(feed.Rest())), r, feed.Rest())
    decreases |feed.Rest()|, 3
  {
    ghost var spec := Chain(modules, AndOp, feed.Rest());
    ChainStep(modules, AndOp, [], feed.Rest());
    assert spec.Ok? ==> [] + spec.value.0 == spec.value.0;
    var factor := ParseFactor(modules, feed);
    if factor.Err? {
      return Err(factor.error);
    }
    var andTerms := [factor.value];
    assert [] + [factor.value] == andTerms;
    var more := feed.Check(And);
    while more
      invariant feed.Valid() && andTerms != [] && |feed.Rest()| < |old(feed.Rest())|
      invariant spec == PrependAll(andTerms, if more then Chain(modules, AndOp, feed.Rest()) else Ok(([], feed.Rest())))
      decreases |feed.Rest()|, more
    {
      ChainStep(modules, AndOp, andTerms, feed.Rest());
      factor := ParseFactor(modules, feed);
      if factor.Err? {
        return Err(factor.error);
      }
      andTerms := andTerms + [factor.value];
      more := feed.Check(And);
    }
    assert andTerms + [] == andTerms;
    r := Ok(if |andTerms| == 1 then andTerms[0] else PNary(AndOp, andTerms));
  }

  /** Config._parse_factor */
  method ParseFactor(modules: Option<Symbol>, feed: Feed) returns (r: Result<PyExpr>)
    requires feed.Valid()
    modifies feed
    ensures feed.Valid()
    ensures Agrees(Factor(modules, old(feed.Rest())), r, feed.Rest())
    decreases |feed.Rest()|, 2
  {
    var open := feed.Check(Open);
    if open {
      r := ParseExpr2(modules, feed);
      if r.Err? {
        return;
      }
      var close := feed.Check(Close);
      if !close {
        r := Err(MissingParenthesis);
      }
      return;
    }
    var bang := feed.Check(Bang);
    if bang {
      r := ParseFactor(modules, feed);
      if r.Ok? {
        r := Ok(PNot(r.value));
      }
      return;
    }
    r := ParseComparison(modules, feed);
  }

  /** The rest of _parse_factor: an operand, alone or in a relation. */
  method ParseComparison(modules: Option<Symbol>, feed: Feed) returns (r: Result<PyExpr>)
    requires feed.Valid() && !StartsWith(feed.Rest(), Open) && !StartsWith(feed.Rest(), Bang)
    modifies feed
    ensures feed.Valid()
    ensures Agrees(Factor(modules, old(feed.Rest())), r, feed.Rest())
    decreases |feed.Rest()|, 1
  {
    ghost var ts := feed.Rest();
    var operand := feed.GetNext();
    if operand == None || !operand.value.Operand? {
      return Err(Malformed);
    }
    var left := operand.value.atom;
    var next := feed.PeekNext();
    if next != Some(Equals) && next != Some(Differs) {
      if modules.Some? && (left == ASym(SymMod) || left == AStr("m")) {
        return Ok(PNary(AndOp, [PStr("m"), PSym(modules.value)]));
      }
      return Ok(if left.ASym? then PSym(left.sym) else PStr(left.str));
    }
    var relation := feed.GetNext();
    var operand2 := feed.GetNext();
    if operand2 == None || !operand2.value.Operand? {
      return Err(NoRightOperand);
    }
    var right := operand2.value.atom;
    if left == ASym(SymMod) {
      left := AStr("m");
    }
    if right == ASym(SymMod) {
      right := AStr("m");
    }
    assert ts[1..][1..] == ts[2..] && ts[2..][1..] == ts[3..];
    r := Ok(PRel(relation == Some(Equals), left, right));
  }

  /** With modules in the configuration, m standing alone means m && MODULES; everything else means itself. */
  lemma AloneOperandMeans(modules: Symbol, a: Atom, val: PyValues)
    requires val(SymMod) == "m"
    ensures a == ASym(SymMod) || a == AStr("m") ==>
              PyValue(val, AloneOperand(Some(modules), a)) == Min(MOD, PyValue(val, PSym(modules)))
    ensures a != ASym(SymMod) && a != AStr("m") ==> AloneOperand(Some(modules), a) == OperandExpr(a)
    ensures AloneOperand(None, a) == OperandExpr(a)
  {
    if a == ASym(SymMod) || a == AStr("m") {
      PyTermsStep(val, AndOp, PStr("m"), [PSym(modules)]);
      PyTermsStep(val, AndOp, PSym(modules), []);
      assert [PStr("m")] + [PSym(modules)] == [PStr("m"), PSym(modules)];
    }
  }
}
