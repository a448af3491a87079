/** JavaScript value handling the request handlers rely on: truthiness of
    request fields and `parseInt` with the `|| default` fallback used for the
    `page` and `limit` query parameters. */
module JsValues {

  datatype Option<+T> = None | Some(value: T)

  /** A text request field is truthy unless it is absent (undefined or null)
      or the empty string. */
  predicate TruthyText(v: Option<string>) {
    v.Some? && v.value != ""
  }

  /** A numeric request field is truthy unless it is absent or zero. */
  predicate TruthyNumber(v: Option<int>) {
    v.Some? && v.value != 0
  }

  /** StrWhiteSpaceChar of ECMAScript: white space (TAB, VT, FF, SP, NBSP,
      ZWNBSP and the space separators of Unicode category Zs) and line
      terminators (LF, CR, LS, PS). */
  predicate IsWhiteSpace(c: char) {
    || c == '\t' || c == '\n' || c == '\U{B}' || c == '\U{C}' || c == '\r'
    || c == ' ' || c == '\U{A0}' || c == '\U{1680}'
    || ('\U{2000}' <= c <= '\U{200A}')
    || c == '\U{2028}' || c == '\U{2029}' || c == '\U{202F}' || c == '\U{205F}'
    || c == '\U{3000}' || c == '\U{FEFF}'
  }

  /** The value of an ASCII letter or digit as a digit of radix up to 36. */
  function DigitValue(c: char): nat
  {
    if '0' <= c <= '9' then (c - '0') as nat
    else if 'a' <= c <= 'z' then (c - 'a') as nat + 10
    else if 'A' <= c <= 'Z' then (c - 'A') as nat + 10
    else 36
  }

  predicate IsDigit(c: char, radix: nat) {
    DigitValue(c) < radix
  }

  predicate AllDigits(s: string, radix: nat) {
    forall i :: 0 <= i < |s| ==> IsDigit(s[i], radix)
  }

  /** `s` with its leading white space removed. */
  function TrimStart(s: string): (r: string)
    ensures |r| <= |s| && r == s[|s| - |r|..]
    ensures forall i :: 0 <= i < |s| - |r| ==> IsWhiteSpace(s[i])
    ensures r == [] || !IsWhiteSpace(r[0])
  {
    if s != [] && IsWhiteSpace(s[0]) then TrimStart(s[1..]) else s
  }

  /** The longest prefix of `s` made of digits of the given radix. */
  function DigitPrefix(s: string, radix: nat): (r: string)
    ensures r <= s && AllDigits(r, radix)
    ensures |r| == |s| || !IsDigit(s[|r|], radix)
  {
    if s != [] && IsDigit(s[0], radix) then [s[0]] + DigitPrefix(s[1..], radix) else []
  }

  /** The number a string of digits denotes in the given radix. */
  function DigitsValue(ds: string, radix: nat): nat
    requires AllDigits(ds, radix)
  {
    if ds == [] then 0
    else DigitsValue(ds[..|ds| - 1], radix) * radix + DigitValue(ds[|ds| - 1])
  }

  /** `parseInt(s)` with no radix argument: skip leading white space, then
      read a signed numeral; `None` stands for NaN. */
  function ParseInt(s: string): Option<int> {
    ParseSigned(TrimStart(s))
  }

  /** An optional sign followed by an unsigned numeral. */
  function ParseSigned(t: string): Option<int> {
    if t != [] && t[0] == '-' then Negated(ParseUnsigned(t[1..]))
    else if t != [] && t[0] == '+' then AsInt(ParseUnsigned(t[1..]))
    else AsInt(ParseUnsigned(t))
  }

  function AsInt(v: Option<nat>): Option<int> {
    match v
    case None => None
    case Some(n) => Some(n as int)
  }

  function Negated(v: Option<nat>): Option<int> {
    match v
    case None => None
    case Some(n) => Some(-(n as int))
  }

  /** The part of `parseInt` after the sign: a `0x`/`0X` prefix selects radix
      16 (radix 10 otherwise), then the longest run of digits of that radix is
      read; no digit at all gives NaN. */
  function ParseUnsigned(u: string): Option<nat> {
    var hex := |u| >= 2 && u[0] == '0' && (u[1] == 'x' || u[1] == 'X');
    var radix := if hex then 16 else 10;
    var z := DigitPrefix(if hex then u[2..] else u, radix);
    if z == [] then None else Some(DigitsValue(z, radix))
  }

  /** `parseInt(raw) || default`: an absent parameter (parseInt of undefined),
      an unparsable one (NaN) and one that parses to zero all give the default. */
  function ParseIntOr(raw: Option<string>, default: int): (n: int)
    ensures default != 0 ==> n != 0
  {
    match raw
    case None => default
    case Some(s) =>
      match ParseInt(s)
      case None => default
      case Some(v) => if v == 0 then default else v
  }

  /** `parseInt(raw) || default` is the parsed value unless that is absent,
      NaN or zero, and the default otherwise. */
  lemma ParseIntOrCases(raw: Option<string>, default: int)
    ensures raw.None? || ParseInt(raw.value) in {None, Some(0)} ==> ParseIntOr(raw, default) == default
    ensures raw.Some? && ParseInt(raw.value).Some? && ParseInt(raw.value).value != 0 ==>
      ParseIntOr(raw, default) == ParseInt(raw.value).value
  {
  }

  /** The decimal numeral of `n`, without leading zeros. */
  function DecimalString(n: nat): (s: string)
    ensures s != [] && AllDigits(s, 10)
    ensures (s[0] == '0') == (n == 0)
  {
    if n < 10 then ['0' + n as char]
    else DecimalString(n / 10) + ['0' + (n % 10) as char]
  }

  lemma {:induction false} DecimalStringValue(n: nat)
    ensures DigitsValue(DecimalString(n), 10) == n
  {
    var s := DecimalString(n);
    if n >= 10 {
      DecimalStringValue(n / 10);
      assert s[..|s| - 1] == DecimalString(n / 10);
    }
  }

  lemma {:induction false} DigitPrefixOfDigits(ds: string, rest: string, radix: nat)
    requires AllDigits(ds, radix)
    requires rest == [] || !IsDigit(rest[0], radix)
    ensures DigitPrefix(ds + rest, radix) == ds
  {
    if ds != [] {
      assert (ds + rest)[1..] == ds[1..] + rest;
      DigitPrefixOfDigits(ds[1..], rest, radix);
    }
  }

  /** What may follow the numeral of `n` without extending it: nothing, or
      a character that is not a decimal digit and, after the numeral "0",
      not the `x` or `X` of a hexadecimal prefix. */
  predicate EndsNumeral(n: nat, rest: string) {
    rest == [] || (!IsDigit(rest[0], 10) && (n == 0 ==> rest[0] != 'x' && rest[0] != 'X'))
  }

  lemma ParseUnsignedDecimal(n: nat, rest: string)
    requires EndsNumeral(n, rest)
    ensures ParseUnsigned(DecimalString(n) + rest) == Some(n)
  {
    var d := DecimalString(n);
    var u := d + rest;
    assert u[0] == d[0];
    if n == 0 {
      assert |d| == 1 && u[1..] == rest;
    }
    DigitPrefixOfDigits(d, rest, 10);
    DecimalStringValue(n);
  }

  /** Text that starts with a digit parses as an unsigned numeral. */
  lemma ParseIntDigitStart(u: string)
    requires u != [] && IsDigit(u[0], 10)
    ensures ParseInt(u) == AsInt(ParseUnsigned(u))
  {
    DigitIsNotSpaceOrSign(u[0]);
    assert TrimStart(u) == u;
  }

  /** Leading white space does not change what `parseInt` reads. */
  lemma ParseIntSkipsWhiteSpace(ws: string, s: string)
    requires forall i :: 0 <= i < |ws| ==> IsWhiteSpace(ws[i])
    requires s == [] || !IsWhiteSpace(s[0])
    ensures ParseInt(ws + s) == ParseInt(s)
  {
    TrimStartDropsWhiteSpace(ws, s);
    assert TrimStart(s) == s;
  }

  /** White space followed by an unsigned numeral parses as that numeral. */
  lemma ParseIntUnsigned(ws: string, u: string, n: nat)
    requires forall i :: 0 <= i < |ws| ==> IsWhiteSpace(ws[i])
    requires u != [] && IsDigit(u[0], 10) && ParseUnsigned(u) == Some(n)
    ensures ParseInt(ws + u) == Some(n)
  {
    ParseIntDigitStart(u);
    DigitIsNotSpaceOrSign(u[0]);
    ParseIntSkipsWhiteSpace(ws, u);
  }

  /** A decimal numeral, preceded by any white space and followed by nothing
      by text that does not extend the numeral (so "12px" reads as 12),
      parses back to its value. */
  lemma ParseIntDecimal(ws: string, n: nat, rest: string)
    requires forall i :: 0 <= i < |ws| ==> IsWhiteSpace(ws[i])
    requires EndsNumeral(n, rest)
    ensures ParseInt(ws + DecimalString(n) + rest) == Some(n)
  {
    var d := DecimalString(n);
    var u := d + rest;
    assert ws + d + rest == ws + u;
    assert u[0] == d[0];
    ParseUnsignedDecimal(n, rest);
    ParseIntUnsigned(ws, u, n);
  }

  /** A leading minus sign negates the unsigned numeral after it. */
  lemma ParseIntMinus(u: string)
    ensures ParseInt(['-'] + u) == Negated(ParseUnsigned(u))
  {
    var t := ['-'] + u;
    assert !IsWhiteSpace('-');
    assert TrimStart(t) == t;
    assert t[1..] == u;
  }

  /** The same with a minus sign: `parseInt("-" + numeral)` is the negated value. */
  lemma ParseIntNegative(n: nat, rest: string)
    requires EndsNumeral(n, rest)
    ensures ParseInt("-" + DecimalString(n) + rest) == Some(-(n as int))
  {
    var u := DecimalString(n) + rest;
    assert "-" + DecimalString(n) + rest == ['-'] + u;
    ParseUnsignedDecimal(n, rest);
    ParseIntMinus(u);
  }

  /** A numeral with a unit suffix, as in a CSS length. */
  lemma ParseIntWithUnit()
    ensures ParseInt("  12px") == Some(12)
  {
    assert DecimalString(12) == "12";
    assert "  12px" == "  " + DecimalString(12) + "px";
    ParseIntDecimal("  ", 12, "px");
  }

  lemma DigitIsNotSpaceOrSign(c: char)
    requires IsDigit(c, 10)
    ensures !IsWhiteSpace(c) && c != '-' && c != '+'
  {
  }

  lemma {:induction false} TrimStartDropsWhiteSpace(ws: string, s: string)
    requires forall i :: 0 <= i < |ws| ==> IsWhiteSpace(ws[i])
    requires s == [] || !IsWhiteSpace(s[0])
    ensures TrimStart(ws + s) == s
  {
    if ws != [] {
      assert (ws + s)[1..] == ws[1..] + s;
      TrimStartDropsWhiteSpace(ws[1..], s);
    }
  }

  /** `parseInt(numeral) || default` is the numeral's value, or the default
      for the numeral "0". */
  lemma ParseIntOrDecimal(n: nat, default: int)
    ensures ParseIntOr(Some(DecimalString(n)), default) == if n == 0 then default else n
  {
    var d := DecimalString(n);
    ParseUnsignedDecimal(n, []);
    assert d + [] == d;
    ParseIntDigitStart(d);
  }

  /** Text with no digit at all (after the optional sign) falls back to the default. */
  lemma ParseIntOrNoDigits(s: string, default: int)
    requires s == [] || !IsDigit(s[0], 10)
    requires s == [] || !IsWhiteSpace(s[0])
    requires s == [] || (s[0] != '-' && s[0] != '+')
    ensures ParseIntOr(Some(s), default) == default
  {
  }
}
