/** Integers as text: `strtoll`, `%lld` and `0x%llx`, as far as sym_validate_range uses them. */
module Numbers {

  const LLONG_MAX: int := 0x7FFF_FFFF_FFFF_FFFF
  const LLONG_MIN: int := -0x8000_0000_0000_0000

  predicate IsBase(base: int) {
    base == 10 || base == 16
  }

  predicate IsSpace(c: char) {
    c == ' ' || '\t' <= c <= '\r'
  }

  /** The value of a digit, or -1. */
  function DigitValue(c: char): int {
    if '0' <= c <= '9' then c as int - '0' as int
    else if 'a' <= c <= 'f' then c as int - 'a' as int + 10
    else if 'A' <= c <= 'F' then c as int - 'A' as int + 10
    else -1
  }

  predicate IsDigit(c: char, base: int) {
    0 <= DigitValue(c) < base
  }

  /** The number written by the longest prefix of digits, continuing from acc. */
  function Digits(s: string, base: int, acc: nat): nat
    requires IsBase(base)
    decreases |s|
  {
    if s != [] && IsDigit(s[0], base) then Digits(s[1..], base, acc * base + DigitValue(s[0])) else acc
  }

  function SkipSpaces(s: string): string {
    if s != [] && IsSpace(s[0]) then SkipSpaces(s[1..]) else s
  }

  /** For base 16 an initial 0x is skipped if a digit follows. */
  function SkipPrefix(s: string, base: int): string {
    if base == 16 && |s| >= 3 && s[0] == '0' && (s[1] == 'x' || s[1] == 'X') && IsDigit(s[2], 16) then s[2..] else s
  }

  function Saturate(n: int): int {
    if n > LLONG_MAX then LLONG_MAX else if n < LLONG_MIN then LLONG_MIN else n
  }

  /** strtoll(s, NULL, base) */
  function StrToLL(s: string, base: int): int
    requires IsBase(base)
  {
    var t := SkipSpaces(s);
    if t != [] && t[0] == '-' then Saturate(0 - Digits(SkipPrefix(t[1..], base), base, 0))
    else Saturate(Digits(SkipPrefix(if t != [] && t[0] == '+' then t[1..] else t, base), base, 0))
  }

  function DigitChar(d: int): char
    requires 0 <= d < 16
  {
    if d < 10 then ('0' as int + d) as char else ('a' as int + d - 10) as char
  }

  /** The digits of n, most significant first. */
  function ShowNat(n: nat, base: int): string
    requires IsBase(base)
    decreases n
  {
    if n < base then [DigitChar(n)] else ShowNat(n / base, base) + [DigitChar(n % base)]
  }

  /** sprintf with %lld */
  function ShowDecimal(n: int): string {
    if n < 0 then "-" + ShowNat(-n, 10) else ShowNat(n, 10)
  }

  /** sprintf with 0x%llx, which prints a negative number as its 64-bit two's complement */
  function ShowHex(n: int): string {
    "0x" + ShowNat(n % 0x1_0000_0000_0000_0000, 16)
  }

  lemma {:induction false} DigitsOfAppend(s: string, c: char, base: int, acc: nat)
    requires IsBase(base) && IsDigit(c, base) && forall i :: 0 <= i < |s| ==> IsDigit(s[i], base)
    ensures Digits(s + [c], base, acc) == Digits(s, base, acc) * base + DigitValue(c)
  {
    if s == [] {
      assert s + [c] == [c] && [c][1..] == [];
    } else {
      assert (s + [c])[1..] == s[1..] + [c];
      DigitsOfAppend(s[1..], c, base, acc * base + DigitValue(s[0]));
    }
  }

  lemma {:induction false} DigitsOfShown(n: nat, base: int)
    requires IsBase(base)
    ensures var s := ShowNat(n, base);
            s != [] && (forall i :: 0 <= i < |s| ==> IsDigit(s[i], base)) && Digits(s, base, 0) == n
  {
    if n < base {
      assert ShowNat(n, base)[1..] == [];
    } else {
      DigitsOfShown(n / base, base);
      DigitsOfAppend(ShowNat(n / base, base), DigitChar(n % base), base, 0);
    }
  }

  lemma DigitsAreNotSpecial(c: char, base: int)
    requires IsBase(base) && IsDigit(c, base)
    ensures !IsSpace(c) && c != '-' && c != '+' && c != 'x' && c != 'X'
  {
  }

  /** Every number a C program can hold survives being printed in decimal. */
  lemma DecimalRoundTrip(n: int)
    requires LLONG_MIN <= n <= LLONG_MAX
    ensures StrToLL(ShowDecimal(n), 10) == n
  {
    var m: nat := if n < 0 then -n else n;
    DigitsOfShown(m, 10);
    var s := ShowNat(m, 10);
    DigitsAreNotSpecial(s[0], 10);
    if n < 0 {
      assert SkipSpaces("-" + s) == "-" + s;
      assert ("-" + s)[1..] == s;
    } else {
      assert SkipSpaces(s) == s;
    }
  }

  /** In hexadecimal only the numbers that are not negative survive. */
  lemma NegativeHexSaturates(n: int)
    requires LLONG_MIN <= n <= LLONG_MAX
    ensures StrToLL(ShowHex(n), 16) == if n >= 0 then n else LLONG_MAX
  {
    var m: nat := n % 0x1_0000_0000_0000_0000;
    DigitsOfShown(m, 16);
    var s := ShowNat(m, 16);
    var t := "0x" + s;
    assert t[0] == '0' && t[1] == 'x' && t[2] == s[0] && t[2..] == s;
    assert SkipSpaces(t) == t;
    assert SkipPrefix(t, 16) == s;
    assert StrToLL(t, 16) == Saturate(m);
  }

  lemma TwosComplement(n: int)
    requires LLONG_MIN <= n <= LLONG_MAX
    ensures n % 0x1_0000_0000_0000_0000 == if n >= 0 then n else n + 0x1_0000_0000_0000_0000
  {
  }

  lemma ShowNatIsInjective(m: nat, n: nat, base: int)
    requires IsBase(base) && ShowNat(m, base) == ShowNat(n, base)
    ensures m == n
  {
    DigitsOfShown(m, base);
    DigitsOfShown(n, base);
  }

  lemma ShowIsInjective(a: int, b: int)
    requires LLONG_MIN <= a <= LLONG_MAX && LLONG_MIN <= b <= LLONG_MAX
    ensures ShowDecimal(a) == ShowDecimal(b) ==> a == b
    ensures ShowHex(a) == ShowHex(b) ==> a == b
  {
    hide StrToLL, ShowNat, Digits;
    DecimalRoundTrip(a);
    DecimalRoundTrip(b);
    TwosComplement(a);
    TwosComplement(b);
    var m: nat, n: nat := a % 0x1_0000_0000_0000_0000, b % 0x1_0000_0000_0000_0000;
    assert ShowHex(a)[2..] == ShowNat(m, 16) && ShowHex(b)[2..] == ShowNat(n, 16);
    if ShowHex(a) == ShowHex(b) {
      ShowNatIsInjective(m, n, 16);
    }
  }

  /** What is shown does not end in a control character. */
  lemma ShownEndsInDigit(n: int)
    requires LLONG_MIN <= n <= LLONG_MAX
    ensures ShowDecimal(n) != [] && ShowDecimal(n)[|ShowDecimal(n)| - 1] != '\r'
    ensures ShowHex(n) != [] && ShowHex(n)[|ShowHex(n)| - 1] != '\r'
  {
    hide ShowNat, Digits;
    var m: nat, h: nat := if n < 0 then -n else n, n % 0x1_0000_0000_0000_0000;
    DigitsOfShown(m, 10);
    DigitsOfShown(h, 16);
    assert IsDigit(ShowNat(m, 10)[|ShowNat(m, 10)| - 1], 10);
    assert IsDigit(ShowNat(h, 16)[|ShowNat(h, 16)| - 1], 16);
  }

  /** Each digit has one character, or a small and a capital letter. */
  lemma DigitsInBothCases(c: char, d: int)
    requires 0 <= d < 16
    ensures DigitValue(c) == d <==> c == DigitChar(d) || (d >= 10 && c == ('A' as int + d - 10) as char)
  {
  }

  /** Digits without a leading zero are what is shown for the number they write. */
  lemma {:induction false} ShownFromDigits(s: string)
    requires s != [] && (forall i :: 0 <= i < |s| ==> IsDigit(s[i], 10)) && (s[0] == '0' ==> |s| == 1)
    ensures ShowNat(Digits(s, 10, 0), 10) == s && (Digits(s, 10, 0) == 0 <==> s == "0")
    decreases |s|
  {
    var rest, last := s[..|s| - 1], s[|s| - 1];
    assert s == rest + [last];
    DigitsInBothCases(last, DigitValue(last));
    DigitsOfAppend(rest, last, 10, 0);
    if rest == [] {
      assert Digits(rest, 10, 0) == 0 && s == [last];
      assert ShowNat(DigitValue(last), 10) == [DigitChar(DigitValue(last))];
    } else {
      assert rest[0] == s[0];
      ShownFromDigits(rest);
    }
  }

  /** strtoll skips blanks, takes a sign and, in base 16, a prefix, and stops at the first other character. */
  lemma ReadLikeStrtoll(digits: string, rest: string, base: int)
    requires IsBase(base) && |digits| > 0 && forall i :: 0 <= i < |digits| ==> IsDigit(digits[i], base)
    requires (rest == [] || !IsDigit(rest[0], base)) && (base == 16 ==> digits != "0")
    ensures var n: int := Digits(digits, base, 0);
            && StrToLL(digits + rest, base) == StrToLL("+" + (digits + rest), base) == Saturate(n)
            && StrToLL("-" + (digits + rest), base) == Saturate(-n)
  {
    var s := digits + rest;
    DigitsStop(digits, rest, base, 0);
    NoPrefix(digits, rest, base);
    DigitsAreNotSpecial(digits[0], base);
    hide Digits, SkipPrefix, IsDigit;
    assert s[0] == digits[0] && ("+" + s)[1..] == s && ("-" + s)[1..] == s;
    assert SkipSpaces(s) == s && SkipSpaces("+" + s) == "+" + s && SkipSpaces("-" + s) == "-" + s;
  }

  lemma NoPrefix(digits: string, rest: string, base: int)
    requires IsBase(base) && |digits| > 0 && forall i :: 0 <= i < |digits| ==> IsDigit(digits[i], base)
    requires base == 16 ==> digits != "0"
    ensures SkipPrefix(digits + rest, base) == digits + rest
  {
    var s := digits + rest;
    if |digits| >= 2 {
      DigitsAreNotSpecial(digits[1], base);
      assert s[1] == digits[1];
    } else {
      assert s[0] == digits[0] && digits == [digits[0]];
    }
  }

  lemma {:induction false} DigitsStop(digits: string, rest: string, base: int, acc: nat)
    requires IsBase(base) && forall i :: 0 <= i < |digits| ==> IsDigit(digits[i], base)
    requires rest == [] || !IsDigit(rest[0], base)
    ensures Digits(digits + rest, base, acc) == Digits(digits, base, acc)
  {
    if digits == [] {
      assert [] + rest == rest;
    } else {
      assert (digits + rest)[1..] == digits[1..] + rest;
      DigitsStop(digits[1..], rest, base, acc * base + DigitValue(digits[0]));
    }
  }

  lemma BlanksAreSkipped(c: char, s: string, base: int)
    requires IsBase(base) && IsSpace(c)
    ensures StrToLL([c] + s, base) == StrToLL(s, base)
  {
    assert ([c] + s)[1..] == s;
  }

  lemma PrefixIsSkipped(x: char, digits: string)
    requires (x == 'x' || x == 'X') && |digits| > 0 && IsDigit(digits[0], 16)
    requires !(|digits| >= 3 && digits[0] == '0' && (digits[1] == 'x' || digits[1] == 'X'))
    ensures StrToLL(['0', x] + digits, 16) == StrToLL(digits, 16)
  {
    var s := ['0', x] + digits;
    DigitsAreNotSpecial(digits[0], 16);
    assert s[2..] == digits && s[2] == digits[0];
    assert SkipSpaces(s) == s && SkipSpaces(digits) == digits;
  }
}
