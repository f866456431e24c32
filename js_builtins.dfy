/**
 * The two JavaScript string built-ins the OBJ loader and the selection handler rely on:
 * `String.prototype.split` with a string separator and the global `parseInt` called without
 * a radix (ECMAScript 2024, sections 22.1.3.23 and 19.2.5).
 */
module JsBuiltins {
  import opened Wrappers

  /** `sep` occurs in `s` at position `q`. */
  predicate MatchAt(s: string, sep: string, q: nat) {
    q + |sep| <= |s| && s[q..q + |sep|] == sep
  }

  /** The first position at or after `i` where `sep` occurs in `s`, if any. */
  function FindFrom(s: string, sep: string, i: nat): (r: Option<nat>)
    requires |sep| > 0 && i <= |s|
    ensures r.Some? ==> i <= r.value && r.value + |sep| <= |s|
    decreases |s| - i
  {
    if i + |sep| > |s| then None
    else if MatchAt(s, sep, i) then Some(i)
    else FindFrom(s, sep, i + 1)
  }

  /** What `FindFrom` finds is an occurrence. */
  lemma {:induction false} FindFromMatches(s: string, sep: string, i: nat)
    requires |sep| > 0 && i <= |s| && FindFrom(s, sep, i).Some?
    ensures MatchAt(s, sep, FindFrom(s, sep, i).value)
    decreases |s| - i
  {
    if !MatchAt(s, sep, i) {
      FindFromMatches(s, sep, i + 1);
    }
  }

  /** `FindFrom` finds the leftmost occurrence at or after `i`. */
  lemma {:induction false} FindFromLeftmost(s: string, sep: string, i: nat)
    requires |sep| > 0 && i <= |s|
    ensures var r := FindFrom(s, sep, i);
      (r.Some? ==> MatchAt(s, sep, r.value)) &&
      (forall q :: i <= q <= |s| && (r.None? || q < r.value) ==> !MatchAt(s, sep, q))
    decreases |s| - i
  {
    if i + |sep| <= |s| && !MatchAt(s, sep, i) {
      FindFromLeftmost(s, sep, i + 1);
    }
  }

  /** `s.split(sep)` for a non-empty separator: the text is cut at every leftmost, non-overlapping
      occurrence of `sep`; empty pieces are kept and the result is never empty. */
  function Split(s: string, sep: string): (parts: seq<string>)
    requires |sep| > 0
    ensures |parts| >= 1
    decreases |s|
  {
    match FindFrom(s, sep, 0)
    case None => [s]
    case Some(p) => [s[..p]] + Split(s[p + |sep|..], sep)
  }

  /** `parts.join(sep)`. */
  function Join(parts: seq<string>, sep: string): string
    decreases |parts|
  {
    if |parts| == 0 then ""
    else if |parts| == 1 then parts[0]
    else parts[0] + sep + Join(parts[1..], sep)
  }

  lemma JoinCons(a: string, rest: seq<string>, sep: string)
    requires |rest| >= 1
    ensures Join([a] + rest, sep) == a + sep + Join(rest, sep)
  {
    assert ([a] + rest)[1..] == rest;
  }

  lemma CutAround(s: string, sep: string, p: nat)
    requires MatchAt(s, sep, p)
    ensures s == s[..p] + sep + s[p + |sep|..]
  {
    assert s == s[..p] + s[p..p + |sep|] + s[p + |sep|..];
  }

  /** Joining the pieces back with the separator gives the original text: `Split` loses nothing. */
  lemma {:induction false} JoinSplit(s: string, sep: string)
    requires |sep| > 0
    ensures Join(Split(s, sep), sep) == s
    decreases |s|
  {
    match FindFrom(s, sep, 0)
    case None =>
    case Some(p) =>
      FindFromMatches(s, sep, 0);
      var t := s[p + |sep|..];
      JoinSplit(t, sep);
      JoinCons(s[..p], Split(t, sep), sep);
      CutAround(s, sep, p);
  }

  /** Split on a single character, no piece contains that character. */
  lemma {:induction false} SplitPiecesFree(s: string, c: char)
    ensures forall i :: 0 <= i < |Split(s, [c])| ==> c !in Split(s, [c])[i]
    decreases |s|
  {
    var parts := Split(s, [c]);
    FindFromLeftmost(s, [c], 0);
    match FindFrom(s, [c], 0)
    case None =>
      forall q | 0 <= q < |s| ensures s[q] != c {
        assert !MatchAt(s, [c], q);
        assert s[q..q + 1] == [s[q]];
      }
    case Some(p) =>
      var t := s[p + 1..];
      SplitPiecesFree(t, c);
      forall q | 0 <= q < p ensures s[q] != c {
        assert !MatchAt(s, [c], q);
        assert s[q..q + 1] == [s[q]];
      }
      assert parts == [s[..p]] + Split(t, [c]);
  }

  /** The characters `parseInt` skips at the front (StrWhiteSpaceChar: white space and line terminators). */
  predicate IsJsWhiteSpace(c: char) {
    ('\t' <= c <= '\r') || c == ' ' || c == '\U{A0}' || c == '\U{1680}' || ('\U{2000}' <= c <= '\U{200A}')
    || c == '\U{2028}' || c == '\U{2029}' || c == '\U{202F}' || c == '\U{205F}' || c == '\U{3000}'
    || c == '\U{FEFF}'
  }

  function TrimStart(s: string): (r: string)
    ensures r == [] || !IsJsWhiteSpace(r[0])
  {
    if |s| > 0 && IsJsWhiteSpace(s[0]) then TrimStart(s[1..]) else s
  }

  /** A digit of radix 10 (`0`-`9`) or radix 16 (also `a`-`f`, `A`-`F`). */
  predicate IsDigitIn(c: char, radix: nat) {
    ('0' <= c <= '9') || (radix == 16 && (('a' <= c <= 'f') || ('A' <= c <= 'F')))
  }

  function DigitValue(c: char, radix: nat): (d: nat)
    requires IsDigitIn(c, radix)
    ensures d < radix || (radix < 10 && d < 10)
  {
    if '0' <= c <= '9' then (c - '0') as nat
    else if 'a' <= c <= 'f' then (c - 'a') as nat + 10
    else (c - 'A') as nat + 10
  }

  /** The length of the longest prefix of `s` made of digits of `radix`. */
  function LeadingDigits(s: string, radix: nat): (n: nat)
    ensures n <= |s|
    ensures forall i :: 0 <= i < n ==> IsDigitIn(s[i], radix)
    ensures n < |s| ==> !IsDigitIn(s[n], radix)
  {
    if |s| > 0 && IsDigitIn(s[0], radix) then 1 + LeadingDigits(s[1..], radix) else 0
  }

  /** The number a string of digits denotes in `radix`, most significant digit first. */
  function DigitsValue(ds: string, radix: nat): nat
    requires forall i :: 0 <= i < |ds| ==> IsDigitIn(ds[i], radix)
  {
    if ds == [] then 0
    else DigitsValue(ds[..|ds| - 1], radix) * radix + DigitValue(ds[|ds| - 1], radix)
  }

  /** `parseInt(input)` with no radix: skip leading white space, read an optional sign, then the
      magnitude; no digit at all gives `NaN` (here `None`). JavaScript's `-0` is the integer 0 here. */
  function JsParseInt(input: string): Option<int> {
    var s := TrimStart(input);
    var negative := |s| > 0 && s[0] == '-';
    var unsigned := if |s| > 0 && (s[0] == '-' || s[0] == '+') then s[1..] else s;
    match Magnitude(unsigned)
    case None => None
    case Some(m) => Some(if negative then -(m as int) else m as int)
  }

  /** The unsigned part of `parseInt`: radix 16 after a `0x`/`0X` prefix, radix 10 otherwise, and
      the longest run of digits of that radix. */
  function Magnitude(unsigned: string): Option<nat> {
    var hex := |unsigned| >= 2 && unsigned[0] == '0' && (unsigned[1] == 'x' || unsigned[1] == 'X');
    var radix := if hex then 16 else 10;
    var body := if hex then unsigned[2..] else unsigned;
    var n := LeadingDigits(body, radix);
    if n == 0 then None else Some(DigitsValue(body[..n], radix))
  }

  function DigitChar(d: nat): (c: char)
    requires d < 10
    ensures IsDigitIn(c, 10) && DigitValue(c, 10) == d
  {
    ('0' as int + d) as char
  }

  /** The decimal numeral of `n`, as `String(n)` writes it. */
  function DecimalText(n: nat): (s: string)
    ensures |s| >= 1
    ensures forall i :: 0 <= i < |s| ==> IsDigitIn(s[i], 10)
    ensures s[0] == '0' ==> n == 0
  {
    if n < 10 then [DigitChar(n)] else DecimalText(n / 10) + [DigitChar(n % 10)]
  }

  lemma {:induction false} DecimalTextValue(n: nat)
    ensures DigitsValue(DecimalText(n), 10) == n
  {
    if n >= 10 {
      DecimalTextValue(n / 10);
      var s := DecimalText(n);
      assert s[..|s| - 1] == DecimalText(n / 10);
    }
  }

  lemma {:induction false} LeadingDigitsOfRun(a: string, b: string, radix: nat)
    requires forall i :: 0 <= i < |a| ==> IsDigitIn(a[i], radix)
    requires b == [] || !IsDigitIn(b[0], radix)
    ensures LeadingDigits(a + b, radix) == |a|
    decreases |a|
  {
    if |a| > 0 {
      assert (a + b)[1..] == a[1..] + b;
      LeadingDigitsOfRun(a[1..], b, radix);
    } else {
      assert a + b == b;
    }
  }

  /** `parseInt` reads back what `String(n)` wrote, whatever follows the numeral as long as it does
      not continue it (another digit, or an `x` turning `0` into a hexadecimal prefix). */
  lemma ParseIntOfDecimal(n: nat, rest: string)
    requires rest == [] || (!IsDigitIn(rest[0], 10) && !(n == 0 && (rest[0] == 'x' || rest[0] == 'X')))
    ensures JsParseInt(DecimalText(n) + rest) == Some(n)
  {
    MagnitudeOfDecimal(n, rest);
    ParseIntUnsigned(DecimalText(n) + rest, n);
  }

  /** ... and with a minus sign in front it reads back `-n`. */
  lemma ParseIntOfNegatedDecimal(n: nat, rest: string)
    requires rest == [] || (!IsDigitIn(rest[0], 10) && !(n == 0 && (rest[0] == 'x' || rest[0] == 'X')))
    ensures JsParseInt("-" + (DecimalText(n) + rest)) == Some(-(n as int))
  {
    MagnitudeOfDecimal(n, rest);
    ParseIntNegated(DecimalText(n) + rest, n);
  }

  lemma ParseIntUnsigned(u: string, m: nat)
    requires |u| > 0 && u[0] != '-' && u[0] != '+' && !IsJsWhiteSpace(u[0])
    requires Magnitude(u) == Some(m)
    ensures JsParseInt(u) == Some(m as int)
  {
    assert TrimStart(u) == u;
  }

  lemma ParseIntNegated(u: string, m: nat)
    requires Magnitude(u) == Some(m)
    ensures JsParseInt("-" + u) == Some(-(m as int))
  {
    var neg := "-" + u;
    assert neg[0] == '-';
    assert TrimStart(neg) == neg;
    assert neg[1..] == u;
  }

  lemma MagnitudeOfDecimal(n: nat, rest: string)
    requires rest == [] || (!IsDigitIn(rest[0], 10) && !(n == 0 && (rest[0] == 'x' || rest[0] == 'X')))
    ensures var u := DecimalText(n) + rest; u[0] != '-' && u[0] != '+' && !IsJsWhiteSpace(u[0])
    ensures Magnitude(DecimalText(n) + rest) == Some(n)
  {
    var t := DecimalText(n);
    var u := t + rest;
    DecimalTextValue(n);
    LeadingDigitsOfRun(t, rest, 10);
    assert u[..|t|] == t;
    assert u[0] == t[0];
    if |u| >= 2 && u[0] == '0' {
      assert n == 0 && |t| == 1;
      assert u[1] == rest[0];
    }
  }
}
