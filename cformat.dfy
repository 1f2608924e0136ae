/**
 * The parts of the C library the modelled code relies on to build text:
 * `sprintf` with `%s` and `%d` directives, and `strlen`.
 */
module CFormat {
  import opened Wrappers

  predicate IsDigit(c: char) {
    '0' <= c <= '9'
  }

  predicate AllDigits(s: string) {
    forall i :: 0 <= i < |s| ==> IsDigit(s[i])
  }

  /** True when `s` holds neither `%` nor NUL, so `sprintf` copies it verbatim. */
  predicate Verbatim(s: string) {
    forall i :: 0 <= i < |s| ==> s[i] != '%' && s[i] != '\0'
  }

  /** True when `s` holds no NUL, so `strlen` sees all of it. */
  predicate NulFree(s: string) {
    forall i :: 0 <= i < |s| ==> s[i] != '\0'
  }

  function DigitChar(d: nat): (c: char)
    requires d < 10
    ensures IsDigit(c)
  {
    ('0' as int + d) as char
  }

  function DigitValue(c: char): (d: nat)
    requires IsDigit(c)
    ensures d < 10 && DigitChar(d) == c
  {
    c as int - '0' as int
  }

  /** Decimal digits of `n`, most significant first, without leading zeros. */
  function Digits(n: nat): (s: string)
    ensures |s| > 0 && AllDigits(s)
    ensures |s| > 1 ==> s[0] != '0'
    decreases n
  {
    if n < 10 then [DigitChar(n)] else Digits(n / 10) + [DigitChar(n % 10)]
  }

  /** The value of a string of decimal digits. */
  function DigitsValue(s: string): nat
    requires AllDigits(s)
  {
    if s == [] then 0 else DigitsValue(s[..|s| - 1]) * 10 + DigitValue(s[|s| - 1])
  }

  /** Conversion `%d`: an optional minus sign, then the digits of the magnitude. */
  function Decimal(i: int): (s: string)
    ensures |s| > 0 && (s[0] == '-' <==> i < 0)
    ensures |s| > 1 ==> s[0] != '0'
    ensures |s| > 1 && s[0] == '-' ==> s[1] != '0'
  {
    if i < 0 then "-" + Digits(-i) else Digits(i)
  }

  /** Reads back a string written by `%d`; None for anything else. */
  function ParseDecimal(s: string): Option<int>
  {
    if |s| > 1 && s[0] == '-' && AllDigits(s[1..]) then Some(-(DigitsValue(s[1..]) as int))
    else if |s| > 0 && AllDigits(s) then Some(DigitsValue(s))
    else None
  }

  lemma {:induction false} DigitsRoundTrip(n: nat)
    ensures DigitsValue(Digits(n)) == n
    decreases n
  {
    if n >= 10 {
      DigitsRoundTrip(n / 10);
      var s := Digits(n);
      assert s[..|s| - 1] == Digits(n / 10);
    }
  }

  /** `%d` loses nothing: the number can be read back from its text. */
  lemma DecimalRoundTrip(i: int)
    ensures ParseDecimal(Decimal(i)) == Some(i)
  {
    var s := Decimal(i);
    if i < 0 {
      assert s[1..] == Digits(-i);
      DigitsRoundTrip(-i);
    } else {
      assert s[0] != '-';
      DigitsRoundTrip(i);
    }
  }

  /** Decimal text holds only digits and a leading minus sign, never a NUL or a `%`. */
  lemma DecimalIsPlain(i: int)
    ensures |Decimal(i)| > 0 && NulFree(Decimal(i)) && Verbatim(Decimal(i))
  {
    var s := Decimal(i);
    if i < 0 {
      assert forall k :: 1 <= k < |s| ==> s[k] == Digits(-i)[k - 1];
    }
  }

  function Pow10(k: nat): (p: nat)
    ensures p >= 1
  {
    if k == 0 then 1 else 10 * Pow10(k - 1)
  }

  /** A number below 10^k needs at most k digits. */
  lemma {:induction false} DigitsLength(n: nat, k: nat)
    requires 0 < k && n < Pow10(k)
    ensures |Digits(n)| <= k
    decreases k
  {
    if n >= 10 {
      DigitsLength(n / 10, k - 1);
    }
  }

  /** A 32-bit `int` prints as at most a sign and ten digits. */
  lemma DecimalOfInt32(i: int)
    requires -0x8000_0000 <= i < 0x8000_0000
    ensures |Decimal(i)| <= 11
  {
    var magnitude: nat := if i < 0 then -i else i;
    assert Pow10(10) == 10_000_000_000;
    DigitsLength(magnitude, 10);
  }

  /** A `sprintf` argument. */
  datatype Arg = Str(s: string) | Int(i: int)

  /**
   * `sprintf(buf, fmt, args...)`: the format ends at its first NUL; `%s`
   * and `%d` take the next argument when it has the matching kind, `%%`
   * writes one `%`, every other character is copied. `%s` copies its
   * argument up to its first NUL. A directive without a matching argument
   * is copied verbatim. What is written before the terminating NUL never
   * holds a NUL, so `strlen` of the buffer is the length of the text.
   */
  function Format(fmt: string, args: seq<Arg>): (r: string)
    ensures NulFree(r)
    decreases |fmt|
  {
    if fmt == [] || fmt[0] == '\0' then []
    else if |fmt| == 1 then fmt
    else if fmt[0] == '%' && fmt[1] == 's' && |args| > 0 && args[0].Str? then
      NulFreeConcat(CString(args[0].s), Format(fmt[2..], args[1..]));
      CString(args[0].s) + Format(fmt[2..], args[1..])
    else if fmt[0] == '%' && fmt[1] == 'd' && |args| > 0 && args[0].Int? then
      DecimalIsPlain(args[0].i);
      NulFreeConcat(Decimal(args[0].i), Format(fmt[2..], args[1..]));
      Decimal(args[0].i) + Format(fmt[2..], args[1..])
    else if fmt[0] == '%' && fmt[1] == '%' then
      NulFreeConcat("%", Format(fmt[2..], args));
      "%" + Format(fmt[2..], args)
    else
      NulFreeConcat([fmt[0]], Format(fmt[1..], args));
      [fmt[0]] + Format(fmt[1..], args)
  }

  /** Text without `%` and NUL is copied verbatim, whatever the arguments. */
  lemma {:induction false} FormatPlain(fmt: string, args: seq<Arg>)
    requires Verbatim(fmt)
    ensures Format(fmt, args) == fmt
    decreases |fmt|
  {
    if |fmt| >= 2 {
      FormatPlain(fmt[1..], args);
      assert [fmt[0]] + fmt[1..] == fmt;
    }
  }

  /** The directive that consumes an argument of this kind. */
  function Directive(arg: Arg): string {
    if arg.Str? then "%s" else "%d"
  }

  /** What an argument becomes in the output. */
  function Rendered(arg: Arg): string {
    if arg.Str? then CString(arg.s) else Decimal(arg.i)
  }

  lemma FormatDirective(rest: string, arg: Arg, args: seq<Arg>)
    ensures Format(Directive(arg) + rest, [arg] + args) == Rendered(arg) + Format(rest, args)
  {
    var fmt := Directive(arg) + rest;
    assert fmt[0] == '%' && fmt[1] == (if arg.Str? then 's' else 'd');
    assert fmt[2..] == rest;
    assert ([arg] + args)[1..] == args;
  }

  lemma FormatLiteral(c: char, rest: string, args: seq<Arg>)
    requires c != '%' && c != '\0' && |rest| > 0
    ensures Format([c] + rest, args) == [c] + Format(rest, args)
  {
    assert ([c] + rest)[1..] == rest;
  }

  /** Text without `%` and NUL ahead of a non-empty tail is copied, then the tail is formatted. */
  lemma {:induction false} FormatPrefix(prefix: string, tail: string, args: seq<Arg>)
    requires Verbatim(prefix) && |tail| > 0
    ensures Format(prefix + tail, args) == prefix + Format(tail, args)
    decreases |prefix|
  {
    if prefix == [] {
      assert prefix + tail == tail;
    } else {
      var rest := prefix[1..] + tail;
      assert prefix + tail == [prefix[0]] + rest;
      FormatLiteral(prefix[0], rest, args);
      FormatPrefix(prefix[1..], tail, args);
      assert [prefix[0]] + (prefix[1..] + Format(tail, args)) == prefix + Format(tail, args);
    }
  }

  /** Text before the first directive is copied, then the directive takes its argument. */
  lemma FormatSplice(prefix: string, rest: string, arg: Arg, args: seq<Arg>)
    requires Verbatim(prefix)
    ensures Format(prefix + Directive(arg) + rest, [arg] + args)
         == prefix + Rendered(arg) + Format(rest, args)
  {
    assert prefix + Directive(arg) + rest == prefix + (Directive(arg) + rest);
    assert |Directive(arg) + rest| > 0;
    FormatPrefix(prefix, Directive(arg) + rest, [arg] + args);
    FormatDirective(rest, arg, args);
  }

  /** A format with one directive and its one argument. */
  lemma FormatOne(prefix: string, rest: string, arg: Arg)
    requires Verbatim(prefix) && Verbatim(rest)
    ensures Format(prefix + Directive(arg) + rest, [arg]) == prefix + Rendered(arg) + rest
  {
    FormatSplice(prefix, rest, arg, []);
    FormatPlain(rest, []);
    assert [arg] + [] == [arg];
  }

  lemma NulFreeConcat(a: string, b: string)
    requires NulFree(a) && NulFree(b)
    ensures NulFree(a + b)
  {
    assert forall i :: |a| <= i < |a + b| ==> (a + b)[i] == b[i - |a|];
  }

  /** `i` is the position of the first NUL in `s`. */
  predicate IsFirstNul(s: string, i: int) {
    0 <= i < |s| && s[i] == '\0' && forall j :: 0 <= j < i ==> s[j] != '\0'
  }

  /** A string that is not NUL-free has a first NUL. */
  lemma {:induction false} FirstNulExists(s: string)
    requires !NulFree(s)
    ensures exists i :: IsFirstNul(s, i)
    decreases |s|
  {
    if s[0] == '\0' {
      assert IsFirstNul(s, 0);
    } else {
      assert !NulFree(s[1..]) by {
        var k :| 0 <= k < |s| && s[k] == '\0';
        assert s[1..][k - 1] == '\0';
      }
      FirstNulExists(s[1..]);
      var i :| IsFirstNul(s[1..], i);
      assert IsFirstNul(s, i + 1);
    }
  }

  /** `strlen`: the number of characters before the first NUL, or all of them when there is none. */
  function CStrLen(s: string): (n: nat)
    ensures n <= |s|
  {
    if NulFree(s) then |s|
    else
      FirstNulExists(s);
      var i :| IsFirstNul(s, i);
      i
  }

  /** `strlen` stops at the first NUL: everything before it is not NUL, and it is NUL or the end. */
  lemma CStrLenIsFirstNul(s: string)
    ensures CStrLen(s) < |s| ==> s[CStrLen(s)] == '\0'
    ensures forall i :: 0 <= i < CStrLen(s) ==> s[i] != '\0'
  {
  }

  /**
   * A C string: the characters before the first NUL, which is all `%s`
   * and every other string function of the C library see.
   */
  function CString(s: string): (c: string)
    ensures NulFree(c) && |c| == CStrLen(s) && c == s[..|c|]
    ensures NulFree(s) ==> c == s
  {
    CStrLenIsFirstNul(s);
    s[..CStrLen(s)]
  }

  /** `strlen` of a string without NUL is its whole length. */
  lemma NulFreeStrLen(s: string)
    requires NulFree(s)
    ensures CStrLen(s) == |s|
  {
    CStrLenIsFirstNul(s);
  }
}
