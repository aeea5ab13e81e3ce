/** String values on their way into a configuration file and back: sym_escape_string_value, the
    in-place unescaping of conf_set_sym_val, and what kconfiglib.py does with str.replace. */
module Strings {
  import opened Exprs

  predicate IsSpecial(c: char) {
    c == '"' || c == '\\'
  }

  /** s with a backslash before every quote and backslash. */
  function EscapeBody(s: string): string {
    if s == [] then []
    else (if IsSpecial(s[0]) then ['\\', s[0]] else [s[0]]) + EscapeBody(s[1..])
  }

  function Escape(s: string): string {
    "\"" + EscapeBody(s) + "\""
  }

  /** How often strcspn stops before the end. */
  function Specials(s: string): nat {
    if s == [] then 0 else (if IsSpecial(s[0]) then 1 else 0) + Specials(s[1..])
  }

  lemma {:induction false} EscapedLength(s: string)
    ensures |EscapeBody(s)| == |s| + Specials(s)
  {
    if s != [] {
      EscapedLength(s[1..]);
    }
  }

  /** `p + strcspn(p, "\"\\")`: the next special character, or the end. */
  function NextSpecial(s: string, p: nat): (q: nat)
    requires p <= |s|
    ensures p <= q <= |s| && (q < |s| ==> IsSpecial(s[q])) && forall i :: p <= i < q ==> !IsSpecial(s[i])
    decreases |s| - p
  {
    if p == |s| || IsSpecial(s[p]) then p else NextSpecial(s, p + 1)
  }

  /** Plain characters are not counted, and escaping leaves them alone. */
  lemma {:induction false} StepOverPlain(s: string, p: nat, q: nat)
    requires p <= q <= |s| && forall i :: p <= i < q ==> !IsSpecial(s[i])
    ensures Specials(s[p..]) == Specials(s[q..])
    ensures EscapeBody(s[p..]) == s[p..q] + EscapeBody(s[q..])
    decreases q - p
  {
    if p < q {
      StepOverPlain(s, p + 1, q);
      assert s[p..][1..] == s[p + 1..];
      assert s[p..q] == [s[p]] + s[p + 1..q];
    }
  }

  lemma StepOverSpecial(s: string, p: nat)
    requires p < |s| && IsSpecial(s[p])
    ensures Specials(s[p..]) == 1 + Specials(s[p + 1..])
    ensures EscapeBody(s[p..]) == ['\\', s[p]] + EscapeBody(s[p + 1..])
  {
    assert s[p..][1..] == s[p + 1..];
  }

  /** The counting pass of sym_escape_string_value. */
  method CountEscaped(s: string) returns (reslen: nat)
    ensures reslen == |Escape(s)| + 1
  {
    reslen := |s| + 2 + 1;
    var p := 0;
    assert s[0..] == s;
    while true
      invariant p <= |s|
      invariant reslen + Specials(s[p..]) == |s| + 3 + Specials(s)
      decreases |s| - p
    {
      var q := NextSpecial(s, p);
      StepOverPlain(s, p, q);
      p := q;
      if p == |s| {
        break;
      }
      StepOverSpecial(s, p);
      reslen := reslen + 1;
      p := p + 1;
    }
    EscapedLength(s);
  }

  /** strncat(res, s + from, n), where the string in res ends at `end`. */
  method Append(res: array<char>, end: nat, s: string)
    requires end + |s| <= res.Length
    modifies res
    ensures res[..end + |s|] == old(res[..end]) + s
  {
    forall i | 0 <= i < |s| {
      res[end + i] := s[i];
    }
  }

  /** What is in the buffer up to `end`, with the rest of s still to come, makes up the whole. */
  ghost predicate Filled(res: array<char>, end: nat, s: string, p: nat, whole: string)
    requires p <= |s|
    reads res
  {
    && end + |EscapeBody(s[p..])| + 2 == res.Length
    && res[..end] + (EscapeBody(s[p..]) + "\"") == whole
  }

  /** The text up to the next special character is copied as it is. */
  method CopyPlain(s: string, p: nat, res: array<char>, end: nat, ghost whole: string) returns (p': nat, end': nat)
    requires p <= |s| && Filled(res, end, s, p, whole)
    modifies res
    ensures p <= p' <= |s| && Filled(res, end', s, p', whole)
    ensures p' < |s| ==> IsSpecial(s[p'])
  {
    p' := NextSpecial(s, p);
    StepOverPlain(s, p, p');
    ghost var done := res[..end];
    hide EscapeBody, IsSpecial, Specials;
    Append(res, end, s[p..p']);
    end' := end + (p' - p);
    Regroup(done, s[p..p'], EscapeBody(s[p'..]), "\"");
  }

  /** A special character is copied with a backslash before it. */
  method CopySpecial(s: string, p: nat, res: array<char>, end: nat, ghost whole: string) returns (end': nat)
    requires p < |s| && IsSpecial(s[p]) && Filled(res, end, s, p, whole)
    modifies res
    ensures Filled(res, end', s, p + 1, whole)
  {
    StepOverSpecial(s, p);
    ghost var done := res[..end];
    hide EscapeBody, IsSpecial, Specials;
    Append(res, end, ['\\', s[p]]);
    end' := end + 2;
    Regroup(done, ['\\', s[p]], EscapeBody(s[p + 1..]), "\"");
  }

  /** sym_escape_string_value: a counting pass to find the size of the buffer, then a second pass
      that fills it. The buffer is filled to its last byte, which holds the terminating zero. */
  method SymEscapeStringValue(s: string) returns (res: array<char>)
    ensures res[..] == Escape(s) + ['\0']
  {
    var reslen := CountEscaped(s);
    res := new char[reslen];
    Append(res, 0, "\"");
    var p, end := 0, 1;
    assert s[0..] == s && s[|s|..] == [] && EscapeBody([]) == [];
    assert Filled(res, end, s, p, Escape(s));
    hide EscapeBody, IsSpecial;
    while true
      invariant p <= |s| && Filled(res, end, s, p, Escape(s))
      decreases |s| - p
    {
      p, end := CopyPlain(s, p, res, end, Escape(s));
      if p == |s| {
        break;
      }
      end := CopySpecial(s, p, res, end, Escape(s));
      p := p + 1;
    }
    Append(res, end, ['"', '\0']);
    assert res[..] == res[..end + 2];
  }

  lemma Regroup(a: string, b: string, c: string, d: string)
    ensures a + ((b + c) + d) == (a + b) + (c + d)
  {
  }

  // ---------- reading back ----------

  /** The text after an opening quote, up to the closing one; a character after a backslash is
      taken as it is. None if there is no closing quote. */
  function Unescaped(s: string): Option<string>
    decreases |s|
  {
    if s == [] then None
    else if s[0] == '"' then Some([])
    else if s[0] == '\\' then
      if |s| == 1 then None else Prepend(s[1], Unescaped(s[2..]))
    else Prepend(s[0], Unescaped(s[1..]))
  }

  function Prepend(c: char, s: Option<string>): Option<string> {
    if s.Some? then Some([c] + s.value) else None
  }

  function PrependAll(t: string, s: Option<string>): Option<string> {
    if s.Some? then Some(t + s.value) else None
  }

  /** Unescaping undoes escaping, whatever follows the closing quote. */
  lemma {:induction false} UnescapeUndoesEscape(s: string, rest: string)
    ensures Unescaped(EscapeBody(s) + "\"" + rest) == Some(s)
  {
    var t := EscapeBody(s) + "\"" + rest;
    if s == [] {
      assert t == "\"" + rest;
    } else {
      UnescapeUndoesEscape(s[1..], rest);
      var t' := EscapeBody(s[1..]) + "\"" + rest;
      if IsSpecial(s[0]) {
        assert t == ['\\', s[0]] + t';
        assert t[2..] == t';
        assert Unescaped(t) == Prepend(s[0], Unescaped(t'));
      } else {
        assert t == [s[0]] + t';
        assert t[1..] == t';
      }
      assert [s[0]] + s[1..] == s;
    }
  }

  lemma PrependMore(c: char, t: string, s: Option<string>)
    ensures Prepend(c, PrependAll(t, s)) == PrependAll([c] + t, s)
  {
    if s.Some? {
      assert [c] + (t + s.value) == ([c] + t) + s.value;
    }
  }

  lemma PrependNothing(s: Option<string>)
    ensures PrependAll([], s) == s
  {
    if s.Some? {
      assert [] + s.value == s.value;
    }
  }

  lemma PrependTwice(a: string, b: string, s: Option<string>)
    ensures PrependAll(a, PrependAll(b, s)) == PrependAll(a + b, s)
  {
    if s.Some? {
      assert a + (b + s.value) == (a + b) + s.value;
    }
  }

  lemma {:induction false} UnescapedSkip(s: string, k: nat)
    requires k <= |s| && forall i :: 0 <= i < k ==> !IsSpecial(s[i])
    ensures Unescaped(s) == PrependAll(s[..k], Unescaped(s[k..]))
  {
    if k == 0 {
      assert s[0..] == s && s[..0] == [];
      PrependNothing(Unescaped(s));
    } else {
      UnescapedSkip(s[1..], k - 1);
      assert s[1..][k - 1..] == s[k..];
      PrependMore(s[0], s[1..][..k - 1], Unescaped(s[k..]));
      assert [s[0]] + s[1..][..k - 1] == s[..k];
    }
  }

  // ---------- C strings in a buffer ----------

  /** The buffer holds a string at p: there is a zero byte at z, and none before it. */
  predicate StringAt(b: seq<char>, p: nat, z: nat) {
    p <= z < |b| && b[z] == '\0' && forall i :: p <= i < z ==> b[i] != '\0'
  }

  /** strpbrk(p, "\"\\"): stopping at the zero byte means "not found". */
  method StrPBrk(buf: array<char>, p: nat, ghost z: nat) returns (q: nat)
    requires StringAt(buf[..], p, z)
    ensures p <= q <= z && (q < z ==> IsSpecial(buf[q])) && forall i :: p <= i < q ==> !IsSpecial(buf[i])
  {
    q := p;
    while buf[q] != '\0' && !IsSpecial(buf[q])
      invariant p <= q <= z && forall i :: p <= i < q ==> !IsSpecial(buf[i])
      decreases z - q
    {
      q := q + 1;
    }
  }

  /** memmove(p, p + 1, strlen(p)): the string loses its first character, in place. */
  method DropChar(buf: array<char>, p: nat, ghost z: nat)
    requires p < z && StringAt(buf[..], p, z)
    modifies buf
    ensures forall i :: 0 <= i < buf.Length ==> buf[i] == if p <= i < z then old(buf[i + 1]) else old(buf[i])
    ensures StringAt(buf[..], p, z - 1)
  {
    var i := p;
    while buf[i] != '\0'
      invariant p <= i <= z
      invariant forall j :: 0 <= j < buf.Length ==> buf[j] == if p <= j < i then old(buf[j + 1]) else old(buf[j])
      decreases z - i
    {
      buf[i] := buf[i + 1];
      i := i + 1;
    }
  }

  /** The same, told as what happens to the string that starts at p. */
  method DropInside(buf: array<char>, p: nat, q: nat, ghost z: nat)
    requires p <= q < z && StringAt(buf[..], p, z)
    modifies buf
    ensures StringAt(buf[..], p, z - 1) && buf[z] == '\0'
    ensures buf[p..q] == old(buf[p..q]) && buf[q..z - 1] == old(buf[q + 1..z])
    ensures forall i :: 0 <= i < p ==> buf[i] == old(buf[i])
  {
    DropChar(buf, q, z);
  }

  /** How the rest of the text after a backslash is read. */
  lemma AfterBackslash(before: string, rest: string, dropped: string)
    requires rest != [] && rest[0] == '\\' && dropped == rest[1..]
    ensures PrependAll(before, Unescaped(rest))
         == if dropped == [] then None else PrependAll(before + [dropped[0]], Unescaped(dropped[1..]))
  {
    if dropped != [] {
      assert dropped[1..] == rest[2..];
      PrependTwice(before, [dropped[0]], Unescaped(rest[2..]));
    }
  }

  /** The loop of conf_set_sym_val that removes backslashes from the string at p and ends it at its
      closing quote. Like the original it works in the line buffer itself. */
  method UnescapeInPlace(buf: array<char>, p: nat, ghost z: nat) returns (ok: bool, ghost z': nat)
    requires StringAt(buf[..], p, z)
    modifies buf
    ensures ok == Unescaped(old(buf[p..z])).Some?
    ensures ok ==> StringAt(buf[..], p, z') && Some(buf[p..z']) == Unescaped(old(buf[p..z]))
    ensures forall i :: 0 <= i < p ==> buf[i] == old(buf[i])
  {
    hide Unescaped, PrependAll;
    ghost var text := buf[p..z];
    z' := z;
    var p2 := p;
    PrependNothing(Unescaped(text));
    ghost var done, rest := [], text;  // what has been read, and what has not
    while true
      invariant p <= p2 <= z' && z' <= z && StringAt(buf[..], p, z')
      invariant buf[p..p2] == done && buf[p2..z'] == rest && Unescaped(text) == PrependAll(done, Unescaped(rest))
      invariant forall i :: 0 <= i < p ==> buf[i] == old(buf[i])
      decreases z' - p2
    {
      var q := StrPBrk(buf, p2, z');
      StoppedAt(done, buf[p2..q], buf[q..z'], rest, buf[p..q]);
      done, rest := buf[p..q], buf[q..z'];
      AtStop(done, rest);
      if buf[q] == '\0' {
        return false, z';
      }
      if buf[q] == '"' {
        EndString(buf, p, q, z');
        return true, q;
      }
      DropInside(buf, p, q, z');
      z' := z' - 1;
      AfterBackslash(done, rest, buf[q..z']);
      p2 := q + 1;
      if buf[q] == '\0' {
        // The backslash was the last character. The search goes on behind the end of the string,
        // where the old zero byte still stands, and finds nothing.
        var none := StrPBrk(buf, p2, p2);
        return false, z';
      }
      done, rest := done + [buf[q]], buf[p2..z'];
    }
  }

  /** *p2 = 0 */
  method EndString(buf: array<char>, p: nat, q: nat, ghost z: nat)
    requires p <= q < z && StringAt(buf[..], p, z)
    modifies buf
    ensures StringAt(buf[..], p, q) && buf[p..q] == old(buf[p..q])
    ensures forall i :: 0 <= i < p ==> buf[i] == old(buf[i])
  {
    buf[q] := '\0';
  }

  /** At the end of the text there is no string, and at a quote it is complete. */
  lemma AtStop(done: string, rest: string)
    ensures rest == [] ==> PrependAll(done, Unescaped(rest)) == None
    ensures rest != [] && rest[0] == '"' ==> PrependAll(done, Unescaped(rest)) == Some(done)
  {
    assert done + [] == done;
  }

  /** The search has passed over text without special characters. */
  lemma StoppedAt(done: string, plain: string, rest: string, all: string, doneAfter: string)
    requires all == plain + rest && doneAfter == done + plain && forall i :: 0 <= i < |plain| ==> !IsSpecial(plain[i])
    ensures PrependAll(done, Unescaped(all)) == PrependAll(doneAfter, Unescaped(rest))
  {
    UnescapedSkip(all, |plain|);
    assert all[..|plain|] == plain && all[|plain|..] == rest;
    PrependTwice(done, plain, Unescaped(rest));
  }

  // ---------- kconfiglib.py ----------

  /** Python's s.replace(pat, rep): left to right, without overlaps. */
  function PyReplace(s: string, pat: string, rep: string): string
    requires pat != []
    decreases |s|
  {
    if |s| < |pat| then s
    else if s[..|pat|] == pat then rep + PyReplace(s[|pat|..], pat, rep)
    else [s[0]] + PyReplace(s[1..], pat, rep)
  }

  /** val.replace("\\", "\\\\").replace('"', '\\"') */
  function PyEscape(s: string): string {
    PyReplace(PyReplace(s, "\\", "\\\\"), "\"", "\\\"")
  }

  /** val.replace('\\"', '"').replace("\\\\", "\\") */
  function PyUnescape(s: string): string {
    PyReplace(PyReplace(s, "\\\"", "\""), "\\\\", "\\")
  }

  /** Only the backslashes doubled: the text between the two passes. */
  function DoubleBackslashes(s: string): string {
    if s == [] then [] else (if s[0] == '\\' then "\\\\" else [s[0]]) + DoubleBackslashes(s[1..])
  }

  lemma {:induction false} FirstPassDoubles(s: string)
    ensures PyReplace(s, "\\", "\\\\") == DoubleBackslashes(s)
  {
    if s != [] {
      FirstPassDoubles(s[1..]);
      assert s[..1] == [s[0]];
    }
  }

  lemma {:induction false} SecondPassEscapes(s: string)
    ensures PyReplace(DoubleBackslashes(s), "\"", "\\\"") == EscapeBody(s)
  {
    if s != [] {
      SecondPassEscapes(s[1..]);
      var t, d := DoubleBackslashes(s[1..]), DoubleBackslashes(s);
      if s[0] == '\\' {
        assert d == ['\\', '\\'] + t;
        assert d[..1] == ['\\'] && d[1..] == ['\\'] + t;
        assert d[1..][..1] == ['\\'] && d[1..][1..] == t;
      } else {
        assert d == [s[0]] + t;
        assert d[..1] == [s[0]] && d[1..] == t;
      }
    }
  }

  /** Both programs escape alike. */
  lemma EscapersAgree(s: string)
    ensures "\"" + PyEscape(s) + "\"" == Escape(s)
  {
    FirstPassDoubles(s);
    SecondPassEscapes(s);
  }

  lemma KeptWithoutQuote(c: char, t: string)
    requires c != '\\' || t == [] || t[0] != '"'
    ensures PyReplace([c] + t, "\\\"", "\"") == [c] + PyReplace(t, "\\\"", "\"")
  {
    var e := [c] + t;
    assert e[1..] == t && e[..1] == [c];
    if |e| >= 2 {
      assert e[..2][0] == c && e[..2][1] == t[0];
    }
  }

  lemma QuoteReplaced(t: string)
    ensures PyReplace(['\\', '"'] + t, "\\\"", "\"") == "\"" + PyReplace(t, "\\\"", "\"")
  {
    var e := ['\\', '"'] + t;
    assert e[..2] == "\\\"" && e[2..] == t;
  }

  lemma EscapedFirst(s: string)
    requires s != []
    ensures EscapeBody(s) == (if IsSpecial(s[0]) then ['\\', s[0]] else [s[0]]) + EscapeBody(s[1..])
    ensures DoubleBackslashes(s) == (if s[0] == '\\' then ['\\', '\\'] else [s[0]]) + DoubleBackslashes(s[1..])
    ensures EscapeBody(s)[0] != '"'
  {
  }

  lemma TwoBackslashes(t: string)
    ensures ['\\'] + (['\\'] + t) == ['\\', '\\'] + t
  {
  }

  lemma {:induction false} QuotesRestored(s: string)
    ensures PyReplace(EscapeBody(s), "\\\"", "\"") == DoubleBackslashes(s)
  {
    if s != [] {
      hide PyReplace, EscapeBody, DoubleBackslashes;
      QuotesRestored(s[1..]);
      EscapedFirst(s);
      var t := EscapeBody(s[1..]);
      NoQuoteFirst(s[1..]);
      if s[0] == '"' {
        QuoteReplaced(t);
      } else {
        KeptWithoutQuote(s[0], t);
        if s[0] == '\\' {
          KeptWithoutQuote('\\', ['\\'] + t);
          TwoBackslashes(t);
          TwoBackslashes(DoubleBackslashes(s[1..]));
        }
      }
    }
  }

  lemma NoQuoteFirst(s: string)
    ensures EscapeBody(s) == [] || EscapeBody(s)[0] != '"'
  {
  }

  lemma {:induction false} BackslashesHalved(s: string)
    ensures PyReplace(DoubleBackslashes(s), "\\\\", "\\") == s
  {
    if s != [] {
      BackslashesHalved(s[1..]);
      var t, d := DoubleBackslashes(s[1..]), DoubleBackslashes(s);
      assert [s[0]] + s[1..] == s;
      if s[0] == '\\' {
        assert d == ['\\', '\\'] + t;
        assert d[..2] == "\\\\" && d[2..] == t;
      } else {
        assert d == [s[0]] + t;
        assert d[1..] == t;
        if |d| >= 2 {
          assert d[..2][0] == s[0];
        }
      }
    }
  }

  /** The two replacements that read a value back undo the two that wrote it. */
  lemma PyUnescapeUndoesEscape(s: string)
    ensures PyUnescape(PyEscape(s)) == s
  {
    FirstPassDoubles(s);
    SecondPassEscapes(s);
    QuotesRestored(s);
    BackslashesHalved(s);
  }
}
