/**
 * Values read from a JSON request body and Python's conversions of them:
 * truthiness (`if not x`), `str(x)`, `int(x)` and `bool(x)`.
 */
module Requests {
  import opened Wrappers
  import opened Text

  /** A JSON scalar as Python sees it after `request.get_json()`. */
  datatype Json = JNull | JBool(b: bool) | JInt(n: int) | JStr(s: string)

  /** A JSON object body. */
  type Body = map<string, Json>

  /** `bool(x)`: `None`, `False`, `0` and `""` are false. */
  predicate Truthy(j: Json)
  {
    match j
    case JNull => false
    case JBool(b) => b
    case JInt(n) => n != 0
    case JStr(s) => s != ""
  }

  /** `data.get(k)`. */
  function Get(data: Body, k: string): Option<Json>
  {
    if k in data then Some(data[k]) else None
  }

  /** `not data.get(k)`: the key is absent or its value is falsy. */
  predicate Missing(data: Body, k: string)
  {
    k !in data || !Truthy(data[k])
  }

  /** `str(n)` for an int. */
  function IntText(n: int): string
  {
    if n >= 0 then DecimalString(n) else "-" + DecimalString(-n)
  }

  /** `str(x)`. */
  function PyStr(j: Json): string
  {
    match j
    case JNull => "None"
    case JBool(b) => if b then "True" else "False"
    case JInt(n) => IntText(n)
    case JStr(s) => s
  }

  /**
   * A decimal literal as `int()` reads one: ASCII digits, where a single
   * `_` may stand between two digits.
   */
  predicate IsNumeral(t: string)
  {
    && t != [] && IsDigit(t[0]) && IsDigit(t[|t| - 1])
    && (forall i :: 0 <= i < |t| ==> IsDigit(t[i]) || t[i] == '_')
    && (forall i :: 0 <= i < |t| - 1 ==> NotDoubled(t, i))
  }

  /** The characters at `i` and `i + 1` are not both `_`. */
  predicate NotDoubled(t: string, i: int)
    requires 0 <= i < |t| - 1
  {
    t[i] != '_' || t[i + 1] != '_'
  }

  /** The value of the digits of `t`, read as one decimal number; the `_` separators of a literal are passed over. */
  function LiteralDigitsValue(t: string): nat
  {
    if t == [] then 0
    else
      var c := t[|t| - 1];
      if IsDigit(c) then 10 * LiteralDigitsValue(t[..|t| - 1]) + DigitValue(c)
      else LiteralDigitsValue(t[..|t| - 1])
  }

  /** The value of an unsigned decimal literal; `None` when `t` is not one. */
  function LiteralValue(t: string): Option<nat>
  {
    if IsNumeral(t) then Some(LiteralDigitsValue(t)) else None
  }

  /** Without separators, a literal's value is that of its digit string. */
  lemma {:induction false} PlainDigitsValue(t: string)
    requires AllDigits(t)
    ensures LiteralDigitsValue(t) == DigitsValue(t)
  {
    if t != [] {
      assert IsDigit(t[|t| - 1]);
      PlainDigitsValue(t[..|t| - 1]);
    }
  }

  /**
   * The whitespace `int()` skips around a number: ASCII space, tab, line feed,
   * vertical tab, form feed and carriage return, and every character above
   * ASCII that `str.isspace` accepts. The ASCII separators U+001C..U+001F,
   * which `str.isspace` accepts, are not skipped.
   */
  predicate IsIntSpace(c: char)
  {
    IsSpace(c) && !(28 <= c as int <= 31)
  }

  /** Drops the leading whitespace `int()` skips. */
  function IntStripStart(s: string): (r: string)
    ensures |r| <= |s|
    ensures r == [] || !IsIntSpace(r[0])
  {
    if s != [] && IsIntSpace(s[0]) then IntStripStart(s[1..]) else s
  }

  /** Drops the trailing whitespace `int()` skips. */
  function IntStripEnd(s: string): (r: string)
    ensures |r| <= |s|
    ensures forall i :: 0 <= i < |r| ==> r[i] == s[i]
    ensures r == [] || !IsIntSpace(r[|r| - 1])
    ensures forall i :: |r| <= i < |s| ==> IsIntSpace(s[i])
  {
    if s != [] && IsIntSpace(s[|s| - 1]) then IntStripEnd(s[..|s| - 1]) else s
  }

  /** The text `int()` reads once the whitespace around it is skipped. */
  function IntStrip(s: string): (r: string)
    ensures r == [] || (!IsIntSpace(r[0]) && !IsIntSpace(r[|r| - 1]))
  {
    IntStripEnd(IntStripStart(s))
  }

  /**
   * `int(s)` on text: surrounding whitespace, an optional sign and a decimal
   * literal. `None` stands for the `ValueError` it raises.
   */
  function ParseIntText(s: string): (r: Option<int>)
  {
    var t := IntStrip(s);
    if t != [] && (t[0] == '-' || t[0] == '+') then
      match LiteralValue(t[1..])
      case None => None
      case Some(n) => Some(if t[0] == '-' then -(n as int) else n)
    else LiteralValue(t)
  }

  /** `int(x)`; `None` stands for the `ValueError` or `TypeError` it raises. */
  function PyInt(j: Json): Option<int>
  {
    match j
    case JNull => None
    case JBool(b) => Some(if b then 1 else 0)
    case JInt(n) => Some(n)
    case JStr(s) => ParseIntText(s)
  }

  /** A text that neither starts nor ends with whitespace is left as it is by `strip()`. */
  lemma NoSpaceIsStripped(s: string)
    requires s == [] || (!IsSpace(s[0]) && !IsSpace(s[|s| - 1]))
    ensures Strip(s) == s
  {
    assert StripStart(s) == s;
    assert StripEnd(s) == s;
  }

  /** A text that neither starts nor ends with whitespace `int()` skips is read as it is. */
  lemma NoIntSpaceIsStripped(s: string)
    requires s == [] || (!IsIntSpace(s[0]) && !IsIntSpace(s[|s| - 1]))
    ensures IntStrip(s) == s
  {
    assert IntStripStart(s) == s;
    assert IntStripEnd(s) == s;
  }

  /** Plain digits are a literal with nothing to take out. */
  lemma DigitsLiteral(t: string)
    requires t != [] && AllDigits(t)
    ensures LiteralValue(t) == Some(DigitsValue(t))
  {
    assert IsDigit(t[0]) && IsDigit(t[|t| - 1]);
    assert IsNumeral(t);
    PlainDigitsValue(t);
  }

  lemma ParseDigitsText(t: string)
    requires t != [] && AllDigits(t)
    ensures ParseIntText(t) == Some(DigitsValue(t))
  {
    assert IsDigit(t[0]) && IsDigit(t[|t| - 1]);
    NoIntSpaceIsStripped(t);
    DigitsLiteral(t);
  }

  lemma ParseNegativeText(digits: string)
    requires digits != [] && AllDigits(digits)
    ensures ParseIntText("-" + digits) == Some(-(DigitsValue(digits) as int))
  {
    var t := "-" + digits;
    assert t[1..] == digits;
    assert t[|t| - 1] == digits[|digits| - 1] && IsDigit(digits[|digits| - 1]);
    NoIntSpaceIsStripped(t);
    DigitsLiteral(digits);
  }

  /** Passing over one `_` between two runs of digits gives the value of the runs written side by side. */
  lemma {:induction false} JoinedDigitsValue(a: string, b: string)
    requires AllDigits(a) && AllDigits(b)
    ensures LiteralDigitsValue(a + "_" + b) == DigitsValue(a + b)
    decreases |b|
  {
    var t := a + "_" + b;
    if b == [] {
      assert t[..|t| - 1] == a && a + b == a;
      PlainDigitsValue(a);
    } else {
      var b' := b[..|b| - 1];
      assert t[..|t| - 1] == a + "_" + b';
      assert t[|t| - 1] == b[|b| - 1] && IsDigit(b[|b| - 1]);
      assert (a + b)[..|a + b| - 1] == a + b';
      assert (a + b)[|a + b| - 1] == b[|b| - 1];
      JoinedDigitsValue(a, b');
    }
  }

  /** Two runs of digits joined by one `_` form a literal. */
  lemma JoinedNumeral(a: string, b: string)
    requires a != [] && AllDigits(a) && b != [] && AllDigits(b)
    ensures IsNumeral(a + "_" + b)
  {
    var t := a + "_" + b;
    assert t[0] == a[0] && t[|t| - 1] == b[|b| - 1];
    assert forall i :: 0 <= i < |t| ==> IsDigit(t[i]) || t[i] == '_';
    forall i | 0 <= i < |t| - 1
      ensures NotDoubled(t, i)
    {
      if i < |a| { assert t[i] == a[i]; } else { assert t[i + 1] == b[i - |a|]; }
    }
  }

  /** Text that starts and ends with a digit is read as an unsigned literal. */
  lemma UnsignedText(t: string)
    requires t != [] && IsDigit(t[0]) && IsDigit(t[|t| - 1])
    ensures ParseIntText(t) == LiteralValue(t)
  {
    assert !IsIntSpace(t[0]) && !IsIntSpace(t[|t| - 1]);
    NoIntSpaceIsStripped(t);
    assert t[0] != '-' && t[0] != '+';
  }

  /** `-` before a text that ends in a digit negates what the text reads as a literal. */
  lemma SignedText(u: string)
    requires u != [] && IsDigit(u[|u| - 1])
    ensures LiteralValue(u).None? ==> ParseIntText("-" + u).None?
    ensures LiteralValue(u).Some? ==> ParseIntText("-" + u) == Some(-(LiteralValue(u).value as int))
  {
    var t := "-" + u;
    assert t[|t| - 1] == u[|u| - 1] && t[1..] == u;
    NoIntSpaceIsStripped(t);
  }

  /** Two runs of digits joined by one `_` are a literal with the value of the runs side by side. */
  lemma GroupedLiteral(a: string, b: string)
    requires a != [] && AllDigits(a) && b != [] && AllDigits(b)
    ensures LiteralValue(a + "_" + b) == Some(DigitsValue(a + b))
  {
    JoinedNumeral(a, b);
    JoinedDigitsValue(a, b);
  }

  /** A `_` between two runs of digits does not change what `int()` reads. */
  lemma SeparatorIgnored(a: string, b: string)
    requires a != [] && AllDigits(a) && b != [] && AllDigits(b)
    ensures ParseIntText(a + "_" + b) == ParseIntText(a + b) == Some(DigitsValue(a + b))
  {
    var t := a + "_" + b;
    assert t[0] == a[0] && t[|t| - 1] == b[|b| - 1];
    assert IsDigit(a[0]) && IsDigit(b[|b| - 1]);
    UnsignedText(t);
    GroupedLiteral(a, b);
    ParseDigitsText(a + b);
  }

  /** A `_` before the digits is refused. */
  lemma LeadingSeparator(a: string)
    requires a != [] && AllDigits(a)
    ensures ParseIntText("_" + a) == None
  {
    var t := "_" + a;
    assert t[|t| - 1] == a[|a| - 1] && IsDigit(a[|a| - 1]);
    NoIntSpaceIsStripped(t);
    assert !IsNumeral(t);
  }

  /** A `_` after the digits is refused. */
  lemma TrailingSeparator(a: string)
    requires a != [] && AllDigits(a)
    ensures ParseIntText(a + "_") == None
  {
    var t := a + "_";
    assert t[0] == a[0] && IsDigit(a[0]);
    NoIntSpaceIsStripped(t);
    assert !IsNumeral(t);
  }

  /** Two `_` in a row are refused. */
  lemma DoubledSeparator(a: string, b: string)
    requires a != [] && AllDigits(a) && b != [] && AllDigits(b)
    ensures ParseIntText(a + "__" + b) == None
  {
    var t := a + "__" + b;
    assert t[0] == a[0] && IsDigit(a[0]);
    assert t[|t| - 1] == b[|b| - 1] && IsDigit(b[|b| - 1]);
    UnsignedText(t);
    assert !NotDoubled(t, |a|);
  }

  /** A `_` before or after the digits, or two in a row between them, is refused. */
  lemma MisplacedSeparators(a: string, b: string)
    requires a != [] && AllDigits(a) && b != [] && AllDigits(b)
    ensures ParseIntText("_" + a) == None
    ensures ParseIntText(a + "_") == None
    ensures ParseIntText(a + "__" + b) == None
  {
    LeadingSeparator(a);
    TrailingSeparator(a);
    DoubledSeparator(a, b);
  }

  lemma {:induction false} IntStripStartSkips(pre: string, u: string)
    requires forall i :: 0 <= i < |pre| ==> IsIntSpace(pre[i])
    requires u == [] || !IsIntSpace(u[0])
    ensures IntStripStart(pre + u) == u
  {
    if pre == [] {
      assert pre + u == u;
    } else {
      assert (pre + u)[0] == pre[0];
      assert (pre + u)[1..] == pre[1..] + u;
      IntStripStartSkips(pre[1..], u);
    }
  }

  lemma {:induction false} IntStripEndSkips(u: string, post: string)
    requires forall i :: 0 <= i < |post| ==> IsIntSpace(post[i])
    requires u == [] || !IsIntSpace(u[|u| - 1])
    ensures IntStripEnd(u + post) == u
    decreases |post|
  {
    if post == [] {
      assert u + post == u;
    } else {
      var w := u + post;
      assert w[|w| - 1] == post[|post| - 1];
      assert w[..|w| - 1] == u + post[..|post| - 1];
      IntStripEndSkips(u, post[..|post| - 1]);
    }
  }

  /** `int()` reads the same from two texts that are equal once the whitespace around them is skipped. */
  lemma ParseSameStripped(s: string, t: string)
    requires IntStrip(s) == IntStrip(t)
    ensures ParseIntText(s) == ParseIntText(t)
  {
  }

  /** Text without surrounding whitespace and without a sign is read as an unsigned literal. */
  lemma UnsignedStripped(t: string)
    requires IntStrip(t) == t && (t == [] || (t[0] != '-' && t[0] != '+'))
    ensures ParseIntText(t) == LiteralValue(t)
  {
  }

  lemma IntStripSurrounded(pre: string, t: string, post: string)
    requires forall i :: 0 <= i < |pre| ==> IsIntSpace(pre[i])
    requires forall i :: 0 <= i < |post| ==> IsIntSpace(post[i])
    requires t != [] && !IsIntSpace(t[0]) && !IsIntSpace(t[|t| - 1])
    ensures IntStrip(pre + t + post) == t == IntStrip(t)
  {
    assert pre + t + post == pre + (t + post);
    assert (t + post)[0] == t[0];
    IntStripStartSkips(pre, t + post);
    IntStripEndSkips(t, post);
    NoIntSpaceIsStripped(t);
  }

  /** Whitespace that `int()` skips, before or after the number, does not change what it reads. */
  lemma SurroundingSpaceSkipped(pre: string, t: string, post: string)
    requires forall i :: 0 <= i < |pre| ==> IsIntSpace(pre[i])
    requires forall i :: 0 <= i < |post| ==> IsIntSpace(post[i])
    requires t != [] && !IsIntSpace(t[0]) && !IsIntSpace(t[|t| - 1])
    ensures ParseIntText(pre + t + post) == ParseIntText(t)
  {
    IntStripSurrounded(pre, t, post);
    ParseSameStripped(pre + t + post, t);
  }

  /**
   * A separator character U+001C..U+001F before the digits is refused, though
   * `str.isspace` counts it as whitespace.
   */
  lemma ControlSeparatorRefused(c: char, d: string)
    requires 28 <= c as int <= 31
    requires d != [] && AllDigits(d)
    ensures IsSpace(c)
    ensures ParseIntText([c] + d) == None
  {
    var t := [c] + d;
    assert t[0] == c && t[|t| - 1] == d[|d| - 1] && IsDigit(d[|d| - 1]);
    NoIntSpaceIsStripped(t);
    UnsignedStripped(t);
    assert !IsNumeral(t) by { assert !IsDigit(t[0]); }
  }

  /** `int(str(n)) == n` for every int. */
  lemma IntTextRoundTrip(n: int)
    ensures ParseIntText(IntText(n)) == Some(n)
  {
    if n >= 0 {
      var t := DecimalString(n);
      assert IntText(n) == t;
      DecimalRoundTrip(n);
      ParseDigitsText(t);
    } else {
      var t := DecimalString(-n);
      assert IntText(n) == "-" + t;
      DecimalRoundTrip(-n);
      ParseNegativeText(t);
    }
  }
}
