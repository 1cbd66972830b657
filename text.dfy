/** Strings as the PHP and JavaScript sources see them: truthiness, digit runs,
    the (int) cast, the Laravel Str helpers used by the commands, path pieces
    (basename, dirname, pathinfo) and left/right trimming. */
module Text {

  datatype Option<T> = None | Some(value: T)

  /** The framework helpers Str::slug, Str::title and Str::random(6), left
      uninterpreted: every operation that uses them takes them as parameters. */
  datatype StrFns = StrFns(slug: string -> string, title: string -> string, random: nat -> string)

  /** PHP truthiness of a string: "" and "0" are the falsy strings. */
  predicate Truthy(s: string) { s != "" && s != "0" }

  /** PHP `!empty($x)` for a nullable string column. */
  predicate Present(o: Option<string>) { o.Some? && Truthy(o.value) }

  // ---------------------------------------------------------------- digits

  predicate IsDigit(c: char) { '0' <= c <= '9' }

  predicate AllDigits(s: string) { forall i :: 0 <= i < |s| ==> IsDigit(s[i]) }

  function DigitValue(c: char): nat
    requires IsDigit(c)
  {
    c as int - '0' as int
  }

  function DigitChar(d: nat): (c: char)
    requires d < 10
    ensures IsDigit(c) && DigitValue(c) == d
  {
    ('0' as int + d) as char
  }

  /** The value of a decimal digit string (leading zeros allowed). */
  function DigitsValue(s: string): nat
    requires AllDigits(s)
  {
    if s == [] then 0 else 10 * DigitsValue(s[..|s| - 1]) + DigitValue(s[|s| - 1])
  }

  /** Decimal rendering of a natural number, as PHP string interpolation prints it. */
  function NatToString(n: nat): (s: string)
    ensures |s| >= 1 && IsDigit(s[0])
  {
    if n < 10 then [DigitChar(n)] else NatToString(n / 10) + [DigitChar(n % 10)]
  }

  /** The rendering is a digit string that reads back as n, without a leading
      zero unless n is 0. */
  lemma {:induction false} NatToStringDigits(n: nat)
    ensures AllDigits(NatToString(n)) && DigitsValue(NatToString(n)) == n
    ensures NatToString(n)[0] == '0' ==> n == 0
  {
    if n >= 10 {
      NatToStringDigits(n / 10);
      var s := NatToString(n);
      assert s[..|s| - 1] == NatToString(n / 10);
    }
  }

  /** Decimal rendering of an integer, with a leading '-' when negative. */
  function IntToString(n: int): (s: string)
    ensures |s| >= 1 && (IsDigit(s[0]) || s[0] == '-')
  {
    if n >= 0 then NatToString(n) else "-" + NatToString(-n)
  }

  /** The rendering of a negative integer is '-' followed by the digits of its
      magnitude; otherwise it is the digits of the integer itself. */
  lemma IntToStringDigits(n: int)
    ensures n >= 0 ==> AllDigits(IntToString(n)) && DigitsValue(IntToString(n)) == n
    ensures n < 0 ==> IntToString(n)[0] == '-' && IntToString(n)[1..] == NatToString(-n)
    ensures n < 0 ==> AllDigits(IntToString(n)[1..]) && DigitsValue(IntToString(n)[1..]) == -n
  {
    if n >= 0 {
      NatToStringDigits(n);
    } else {
      NatToStringDigits(-n);
      assert IntToString(n)[1..] == NatToString(-n);
    }
  }

  /** The longest prefix of `s` made of decimal digits (a greedy `\d*`). */
  function DigitPrefix(s: string): (d: string)
    ensures d <= s && AllDigits(d)
    ensures |d| < |s| ==> !IsDigit(s[|d|])
  {
    if s != [] && IsDigit(s[0]) then [s[0]] + DigitPrefix(s[1..]) else []
  }

  // ---------------------------------------------------------------- searching

  predicate OccursAt(s: string, sub: string, i: nat)
  {
    i + |sub| <= |s| && s[i..i + |sub|] == sub
  }

  /** The leftmost occurrence of `sub` in `s` at k or later. */
  function IndexOfFrom(s: string, sub: string, k: nat): (r: Option<nat>)
    requires k <= |s| + 1
    ensures r.Some? ==> k <= r.value && OccursAt(s, sub, r.value) && forall j :: k <= j < r.value ==> !OccursAt(s, sub, j)
    ensures r.None? ==> forall j :: k <= j <= |s| ==> !OccursAt(s, sub, j)
    decreases |s| + 1 - k
  {
    if k == |s| + 1 then None else if OccursAt(s, sub, k) then Some(k) else IndexOfFrom(s, sub, k + 1)
  }

  /** strpos: the first occurrence of `sub` in `s`. */
  function IndexOf(s: string, sub: string): (r: Option<nat>)
    ensures r.Some? ==> OccursAt(s, sub, r.value) && forall j :: 0 <= j < r.value ==> !OccursAt(s, sub, j)
    ensures r.None? ==> forall j :: 0 <= j <= |s| ==> !OccursAt(s, sub, j)
  {
    IndexOfFrom(s, sub, 0)
  }

  /** The rightmost occurrence of `sub` in `s` before n. */
  function LastIndexBefore(s: string, sub: string, n: nat): (r: Option<nat>)
    ensures r.Some? ==> r.value < n && OccursAt(s, sub, r.value) && forall j :: r.value < j < n ==> !OccursAt(s, sub, j)
    ensures r.None? ==> forall j :: 0 <= j < n ==> !OccursAt(s, sub, j)
  {
    if n == 0 then None else if OccursAt(s, sub, n - 1) then Some(n - 1) else LastIndexBefore(s, sub, n - 1)
  }

  /** strrpos: the last occurrence of `sub` in `s`. */
  function LastIndexOf(s: string, sub: string): (r: Option<nat>)
    ensures r.Some? ==> OccursAt(s, sub, r.value) && forall j :: r.value < j <= |s| ==> !OccursAt(s, sub, j)
    ensures r.None? ==> forall j :: 0 <= j <= |s| ==> !OccursAt(s, sub, j)
  {
    LastIndexBefore(s, sub, |s| + 1)
  }

  /** Str::contains with a non-empty needle (case-sensitive). */
  predicate Contains(s: string, sub: string)
  {
    IndexOf(s, sub).Some?
  }

  /** Str::startsWith with a non-empty needle. */
  predicate StartsWith(s: string, prefix: string)
  {
    prefix <= s
  }

  /** `lit` occurs at i and is directly followed by a digit: where `lit(\d+)` matches. */
  predicate LitDigitAt(s: string, lit: string, i: nat)
  {
    i + |lit| < |s| && s[i..i + |lit|] == lit && IsDigit(s[i + |lit|])
  }

  /** The leftmost i >= k where `lit(\d+)` matches. */
  function FirstLitDigit(s: string, lit: string, k: nat): (r: Option<nat>)
    requires k <= |s|
    ensures r.Some? ==> k <= r.value < |s| && LitDigitAt(s, lit, r.value)
    ensures r.None? ==> forall i :: k <= i < |s| ==> !LitDigitAt(s, lit, i)
    decreases |s| - k
  {
    if k == |s| then None else if LitDigitAt(s, lit, k) then Some(k) else FirstLitDigit(s, lit, k + 1)
  }

  /** The capture of preg_match('/lit(\d+)/', s): the digit run after the leftmost
      `lit` that is followed by a digit; None when there is no match. */
  function CaptureAfter(s: string, lit: string): (r: Option<string>)
    ensures r.None? <==> forall i :: 0 <= i < |s| ==> !LitDigitAt(s, lit, i)
    ensures r.Some? ==> |r.value| >= 1 && AllDigits(r.value)
  {
    match FirstLitDigit(s, lit, 0)
    case None => None
    case Some(i) => Some(DigitPrefix(s[i + |lit|..]))
  }

  // ---------------------------------------------------------------- Laravel Str

  /** Str::after: everything after the first occurrence of `search`; the whole
      subject when `search` is empty or absent. */
  function After(s: string, search: string): (r: string)
    ensures search != [] && IndexOf(s, search).Some? ==> r == s[IndexOf(s, search).value + |search|..]
    ensures search == [] || IndexOf(s, search).None? ==> r == s
  {
    if search == [] then s
    else match IndexOf(s, search)
      case None => s
      case Some(i) => s[i + |search|..]
  }

  /** Str::before: everything before the first occurrence of `search`; the whole
      subject when `search` is empty or absent. */
  function Before(s: string, search: string): (r: string)
    ensures r <= s
    ensures search != [] && IndexOf(s, search).Some? ==> |r| == IndexOf(s, search).value
    ensures search == [] || IndexOf(s, search).None? ==> r == s
  {
    if search == [] then s
    else match IndexOf(s, search)
      case None => s
      case Some(i) => s[..i]
  }

  /** Str::beforeLast: everything before the last occurrence of `search`. */
  function BeforeLast(s: string, search: string): (r: string)
    ensures r <= s
    ensures search == [] || LastIndexOf(s, search).None? ==> r == s
  {
    if search == [] then s
    else match LastIndexOf(s, search)
      case None => s
      case Some(i) => s[..i]
  }

  /** Str::between: beforeLast(after(s, from), to), or `s` when a delimiter is empty. */
  function Between(s: string, from: string, to: string): string
  {
    if from == [] || to == [] then s else BeforeLast(After(s, from), to)
  }

  /** str_replace of one character by another. */
  function ReplaceChar(s: string, a: char, b: char): (r: string)
    ensures |r| == |s|
    ensures forall i :: 0 <= i < |s| ==> r[i] == (if s[i] == a then b else s[i])
  {
    if s == [] then [] else [if s[0] == a then b else s[0]] + ReplaceChar(s[1..], a, b)
  }

  // ---------------------------------------------------------------- trimming

  /** ltrim($s, c): drop every leading c. */
  function LTrim(s: string, c: char): (r: string)
    ensures |r| <= |s| && r == s[|s| - |r|..]
    ensures r != [] ==> r[0] != c
    ensures forall i :: 0 <= i < |s| - |r| ==> s[i] == c
  {
    if s != [] && s[0] == c then LTrim(s[1..], c) else s
  }

  /** rtrim($s, c): drop every trailing c. */
  function RTrim(s: string, c: char): (r: string)
    ensures r <= s
    ensures r != [] ==> r[|r| - 1] != c
    ensures forall i :: |r| <= i < |s| ==> s[i] == c
  {
    if s != [] && s[|s| - 1] == c then RTrim(s[..|s| - 1], c) else s
  }

  /** rtrim($base, '/') . '/' . ltrim($path, '/'): the two halves meet at exactly one slash. */
  function JoinUrl(base: string, path: string): (r: string)
    ensures exists b, q :: r == b + "/" + q && b <= base && (b == [] || b[|b| - 1] != '/')
                           && |q| <= |path| && q == path[|path| - |q|..] && (q == [] || q[0] != '/')
  {
    var b, q := RTrim(base, '/'), LTrim(path, '/');
    assert b + "/" + q == RTrim(base, '/') + "/" + LTrim(path, '/');
    RTrim(base, '/') + "/" + LTrim(path, '/')
  }

  // ---------------------------------------------------------------- ASCII case

  function Lower(c: char): char
  {
    if 'A' <= c <= 'Z' then (c as int + 32) as char else c
  }

  /** strcasecmp($a, $b) === 0: equal up to ASCII case. */
  predicate EqualIgnoringCase(a: string, b: string)
  {
    |a| == |b| && forall i :: 0 <= i < |a| ==> Lower(a[i]) == Lower(b[i])
  }

  // ---------------------------------------------------------------- paths

  /** basename() of a path without a trailing '/': the part after the last '/'. */
  function Basename(p: string): (r: string)
    ensures |r| <= |p| && r == p[|p| - |r|..] && '/' !in r
  {
    match LastIndexOf(p, "/")
    case None =>
      assert forall j :: 0 <= j < |p| ==> p[j] != '/' by {
        forall j | 0 <= j < |p| ensures p[j] != '/' { assert !OccursAt(p, "/", j); }
      }
      p
    case Some(i) =>
      assert forall j :: i + 1 <= j < |p| ==> p[j] != '/' by {
        forall j | i + 1 <= j < |p| ensures p[j] != '/' { assert !OccursAt(p, "/", j); }
      }
      p[i + 1..]
  }

  /** dirname() of a path without a trailing '/': the part before the last '/',
      or "." when there is none. */
  function Dirname(p: string): string
  {
    match LastIndexOf(p, "/")
    case None => "."
    case Some(i) => p[..i]
  }

  /** pathinfo($p, PATHINFO_EXTENSION): after the last '.' of the basename, or "". */
  function Extension(p: string): (r: string)
    ensures '.' !in r
  {
    var b := Basename(p);
    match LastIndexOf(b, ".")
    case None => ""
    case Some(k) =>
      assert forall j :: k + 1 <= j < |b| ==> b[j] != '.' by {
        forall j | k + 1 <= j < |b| ensures b[j] != '.' { assert !OccursAt(b, ".", j); }
      }
      b[k + 1..]
  }

  /** pathinfo($p, PATHINFO_FILENAME): the basename without its last '.' suffix. */
  function FilenameWithoutExtension(p: string): string
  {
    var b := Basename(p);
    match LastIndexOf(b, ".")
    case None => b
    case Some(k) => b[..k]
  }

  // ---------------------------------------------------------------- (int) cast

  predicate IsSpace(c: char) { c == ' ' || c == '\t' || c == '\n' || c == '\r' || c == '\U{B}' || c == '\U{C}' }

  /** PHP's (int) cast of a string (PHP 7.1 and later): leading whitespace, an
      optional sign, then the longest numeric prefix. A prefix that carries a '.'
      or an exponent is read as a number and truncated toward zero; no numeric
      prefix gives 0. */
  function IntCast(s: string): int
  {
    var t := SkipSpace(s);
    if t != [] && (t[0] == '-' || t[0] == '+') then
      var v := UnsignedCast(t[1..]);
      if t[0] == '-' then -(v as int) else v
    else UnsignedCast(t)
  }

  /** The value of the numeric prefix after the sign: digits, an optional '.'
      with more digits (at least one digit on either side), then an optional
      exponent `e` or `E` with an optional sign and at least one digit. */
  function UnsignedCast(u: string): nat
  {
    var whole := DigitPrefix(u);
    NumberValue(whole, u[|whole|..])
  }

  /** The value of a numeric prefix whose leading digits are `whole`, followed
      by `rest`. */
  function NumberValue(whole: string, rest: string): nat
    requires AllDigits(whole)
  {
    if rest != [] && rest[0] == '.' then FractionNumber(whole, rest[1..])
    else if whole == [] then 0
    else Scaled(DigitsValue(whole), ExponentOf(rest))
  }

  /** The value of a numeric prefix with leading digits `whole`, a '.', and
      then `afterDot`: zero unless there is a digit on either side. */
  function FractionNumber(whole: string, afterDot: string): nat
    requires AllDigits(whole)
  {
    var frac := DigitPrefix(afterDot);
    FractionParts(whole, frac, afterDot[|frac|..])
  }

  /** Leading digits `whole`, fraction digits `frac`, then `tail`. */
  function FractionParts(whole: string, frac: string, tail: string): nat
    requires AllDigits(whole) && AllDigits(frac)
  {
    if whole == [] && frac == [] then 0
    else Scaled(DigitsValue(whole + frac), ExponentOf(tail) - |frac|)
  }

  /** The exponent that opens s, or 0 when s does not open with one. */
  function ExponentOf(s: string): int
  {
    if |s| >= 2 && (s[0] == 'e' || s[0] == 'E') then SignedDigits(s[1..]) else 0
  }

  /** The value of an optional sign and at least one digit opening t, or 0
      when t does not open with them. */
  function SignedDigits(t: string): int
  {
    if t != [] && IsDigit(t[0]) then DigitRun(t)
    else if |t| >= 2 && (t[0] == '+' || t[0] == '-') && IsDigit(t[1]) then
      if t[0] == '-' then -(DigitRun(t[1..]) as int) else DigitRun(t[1..])
    else 0
  }

  /** The value of the digits opening t. */
  function DigitRun(t: string): nat
  {
    DigitsValue(DigitPrefix(t))
  }

  /** m times ten to the power e, truncated toward zero. */
  function Scaled(m: nat, e: int): nat
    decreases if e >= 0 then e else -e
  {
    if e == 0 then m
    else if e > 0 then 10 * Scaled(m, e - 1)
    else Scaled(m, e + 1) / 10
  }

  function SkipSpace(s: string): (r: string)
    ensures |r| <= |s| && r == s[|s| - |r|..]
    ensures r != [] ==> !IsSpace(r[0])
  {
    if s != [] && IsSpace(s[0]) then SkipSpace(s[1..]) else s
  }

  /** The (int) cast of a plain digit string is its decimal value. */
  lemma IntCastOfDigits(s: string)
    requires AllDigits(s)
    ensures IntCast(s) == DigitsValue(s)
  {
    UnsignedCastOfDigits(s);
    if s != [] {
      assert !IsSpace(s[0]) && s[0] != '-' && s[0] != '+';
    }
  }

  lemma UnsignedCastOfDigits(s: string)
    requires AllDigits(s)
    ensures UnsignedCast(s) == DigitsValue(s)
  {
    DigitPrefixOfDigits(s);
    assert s[|s|..] == [];
  }

  /** Digits, then something that is neither a digit nor a '.': the digits
      scaled by the exponent that follows, if any. */
  lemma UnsignedCastOfWhole(whole: string, tail: string)
    requires AllDigits(whole) && whole != []
    requires tail == [] || (!IsDigit(tail[0]) && tail[0] != '.')
    ensures UnsignedCast(whole + tail) == Scaled(DigitsValue(whole), ExponentOf(tail))
  {
    DigitsThenOther(whole, tail);
    assert (whole + tail)[|whole|..] == tail;
  }

  /** Digits, a '.', more digits (at least one digit in all), then something
      that is not a digit: all the digits, scaled by the exponent that follows
      less the number of fraction digits. */
  lemma UnsignedCastOfFraction(whole: string, frac: string, tail: string)
    requires AllDigits(whole) && AllDigits(frac) && whole + frac != []
    requires tail == [] || !IsDigit(tail[0])
    ensures UnsignedCast(whole + "." + frac + tail) ==
      Scaled(DigitsValue(whole + frac), ExponentOf(tail) - |frac|)
  {
    var rest := "." + frac + tail;
    assert whole + "." + frac + tail == whole + rest;
    DigitsThenOther(whole, rest);
    assert (whole + rest)[|whole|..] == rest;
    FractionValue(whole, frac, tail);
  }

  lemma FractionValue(whole: string, frac: string, tail: string)
    requires AllDigits(whole) && AllDigits(frac) && whole + frac != []
    requires tail == [] || !IsDigit(tail[0])
    ensures NumberValue(whole, "." + frac + tail) ==
      Scaled(DigitsValue(whole + frac), ExponentOf(tail) - |frac|)
  {
    var rest := "." + frac + tail;
    assert rest != [] && rest[0] == '.' && rest[1..] == frac + tail;
    assert NumberValue(whole, rest) == FractionNumber(whole, frac + tail);
    FractionNumberOf(whole, frac, tail);
    FractionPartsValue(whole, frac, tail);
  }

  lemma FractionNumberOf(whole: string, frac: string, tail: string)
    requires AllDigits(whole) && AllDigits(frac)
    requires tail == [] || !IsDigit(tail[0])
    ensures FractionNumber(whole, frac + tail) == FractionParts(whole, frac, tail)
  {
    DigitsThenOther(frac, tail);
    assert (frac + tail)[|frac|..] == tail;
  }

  lemma FractionPartsValue(whole: string, frac: string, tail: string)
    requires AllDigits(whole) && AllDigits(frac) && whole + frac != []
    ensures FractionParts(whole, frac, tail) == Scaled(DigitsValue(whole + frac), ExponentOf(tail) - |frac|)
  {
    assert |whole + frac| == |whole| + |frac| > 0;
  }

  /** An exponent: `e` or `E`, an optional sign, digits, then no digit. */
  lemma ExponentOfDigits(e: char, sign: string, d: string, rest: string)
    requires e == 'e' || e == 'E'
    requires sign == [] || sign == "+" || sign == "-"
    requires AllDigits(d) && d != [] && (rest == [] || !IsDigit(rest[0]))
    ensures ExponentOf([e] + sign + d + rest) == if sign == "-" then -(DigitsValue(d) as int) else DigitsValue(d)
  {
    var s := [e] + sign + d + rest;
    assert s[1..] == sign + d + rest;
    if sign == [] {
      assert sign + d + rest == d + rest;
      UnsignedDigitsOf(d, rest);
    } else {
      assert sign + d + rest == [sign[0]] + d + rest;
      SignedDigitsOf(sign[0], d, rest);
    }
  }

  lemma UnsignedDigitsOf(d: string, rest: string)
    requires AllDigits(d) && d != [] && (rest == [] || !IsDigit(rest[0]))
    ensures SignedDigits(d + rest) == DigitsValue(d)
  {
    DigitRunOf(d, rest);
    assert (d + rest)[0] == d[0];
  }

  lemma DigitRunOf(d: string, rest: string)
    requires AllDigits(d) && (rest == [] || !IsDigit(rest[0]))
    ensures DigitRun(d + rest) == DigitsValue(d)
  {
    DigitsThenOther(d, rest);
  }

  lemma SignedDigitsOf(c: char, d: string, rest: string)
    requires c == '+' || c == '-'
    requires AllDigits(d) && d != [] && (rest == [] || !IsDigit(rest[0]))
    ensures SignedDigits([c] + d + rest) == if c == '-' then -(DigitsValue(d) as int) else DigitsValue(d)
  {
    var t := [c] + d + rest;
    assert t[0] == c && t[1] == d[0];
    assert t[1..] == d + rest;
    DigitRunOf(d, rest);
  }

  /** A string that opens with a digit is cast by its numeric prefix alone,
      and a '-' before it negates the value. */
  lemma IntCastOfUnsigned(u: string)
    requires u != [] && IsDigit(u[0])
    ensures IntCast(u) == UnsignedCast(u)
    ensures IntCast(['-'] + u) == -(UnsignedCast(u) as int)
  {
    assert !IsSpace(u[0]);
    assert (['-'] + u)[1..] == u;
  }

  /** An exponent scales the digits: "1e2" is 100. */
  lemma IntCastExponent(a: char)
    requires IsDigit(a)
    ensures IntCast([a, 'e', '2']) == 100 * DigitValue(a)
  {
    var u := [a, 'e', '2'];
    var t := u[1..];
    assert u == [a] + t;
    UnsignedCastOfWhole([a], t);
    ExponentOfDigits('e', [], t[1..], []);
    assert ['e'] + [] + t[1..] + [] == t;
    DigitsValueOfOne(t[1]);
    assert t[1..] == [t[1]];
    DigitsValueOfOne(a);
    assert Scaled(DigitValue(a), 2) == 100 * DigitValue(a);
    IntCastOfUnsigned(u);
  }

  /** A one-digit fraction shifted by `e1` is read whole: "1.5e1" is 15. */
  lemma IntCastFractionExponent(a: char, b: char)
    requires IsDigit(a) && IsDigit(b)
    ensures IntCast([a, '.', b, 'e', '1']) == 10 * DigitValue(a) + DigitValue(b)
  {
    var u := [a, '.', b, 'e', '1'];
    var t := u[3..];
    assert u == [a] + "." + [b] + t;
    UnsignedCastOfFraction([a], [b], t);
    ExponentOfDigits('e', [], t[1..], []);
    assert ['e'] + [] + t[1..] + [] == t;
    DigitsValueOfOne(t[1]);
    assert t[1..] == [t[1]];
    DigitsValueOfTwo(a, b);
    assert [a] + [b] == [a, b];
    IntCastOfUnsigned(u);
  }

  /** A fraction is truncated toward zero on either sign: "2.9" is 2 and
      "-2.9" is -2. */
  lemma IntCastTruncates(a: char, b: char)
    requires IsDigit(a) && IsDigit(b)
    ensures IntCast([a, '.', b]) == DigitValue(a)
    ensures IntCast(['-', a, '.', b]) == -(DigitValue(a) as int)
  {
    var u := [a, '.', b];
    UnsignedCastTruncates(a, b);
    IntCastOfUnsigned(u);
    assert ['-'] + u == ['-', a, '.', b];
  }

  lemma UnsignedCastTruncates(a: char, b: char)
    requires IsDigit(a) && IsDigit(b)
    ensures UnsignedCast([a, '.', b]) == DigitValue(a)
  {
    assert [a, '.', b] == [a] + "." + [b] + [];
    UnsignedCastOfFraction([a], [b], []);
    assert ExponentOf([]) - |[b]| == -1;
    DigitsValueOfTwo(a, b);
    assert [a] + [b] == [a, b];
    var m := 10 * DigitValue(a) + DigitValue(b);
    assert Scaled(m, -1) == m / 10;
  }

  /** An `e` with no digits after it is not part of the number: "1e" is 1. */
  lemma IntCastBareExponent(a: char)
    requires IsDigit(a)
    ensures IntCast([a, 'e']) == DigitValue(a)
  {
    var u := [a, 'e'];
    assert u == [a] + u[1..];
    UnsignedCastOfWhole([a], u[1..]);
    DigitsValueOfOne(a);
    IntCastOfUnsigned(u);
  }

  lemma DigitsValueOfOne(a: char)
    requires IsDigit(a)
    ensures DigitsValue([a]) == DigitValue(a)
  {
    assert [a][..0] == [];
  }

  lemma DigitsValueOfTwo(a: char, b: char)
    requires IsDigit(a) && IsDigit(b)
    ensures DigitsValue([a, b]) == 10 * DigitValue(a) + DigitValue(b)
  {
    DigitsValueOfOne(a);
    assert [a, b][..1] == [a];
  }

  lemma {:induction false} DigitPrefixOfDigits(s: string)
    requires AllDigits(s)
    ensures DigitPrefix(s) == s
  {
    if s != [] {
      DigitPrefixOfDigits(s[1..]);
    }
  }

  /** (int) of a rendered integer gives the integer back. */
  lemma IntCastOfIntToString(n: int)
    ensures IntCast(IntToString(n)) == n
  {
    var s := IntToString(n);
    IntToStringDigits(n);
    if n >= 0 {
      IntCastOfDigits(s);
    } else {
      UnsignedCastOfDigits(s[1..]);
    }
  }

  /** A name without '/' is its own basename. */
  lemma BasenameOfPlainName(name: string)
    requires '/' !in name
    ensures Basename(name) == name
  {
    forall j | 0 <= j <= |name| ensures !OccursAt(name, "/", j) {
      if j < |name| {
        assert name[j..j + 1][0] == name[j];
      }
    }
  }

  /** A string opening with `lit` and a digit is captured from just after `lit`. */
  lemma CaptureAfterAtStart(s: string, lit: string)
    requires |lit| < |s| && s[..|lit|] == lit && IsDigit(s[|lit|])
    ensures CaptureAfter(s, lit) == Some(DigitPrefix(s[|lit|..]))
  {
    assert LitDigitAt(s, lit, 0);
  }

  /** The basename of dir + "/" + name is name, and its dirname is dir, when
      name has no '/'. */
  lemma BasenameOfJoin(dir: string, name: string)
    requires '/' !in name
    ensures Basename(dir + "/" + name) == name
    ensures Dirname(dir + "/" + name) == dir
  {
    var t := dir + "/" + name;
    assert OccursAt(t, "/", |dir|) by {
      assert t[|dir|..|dir| + 1] == "/";
    }
    forall j | |dir| < j <= |t| ensures !OccursAt(t, "/", j) {
      if j < |t| {
        assert t[j..j + 1][0] == name[j - |dir| - 1];
      }
    }
    assert LastIndexOf(t, "/") == Some(|dir|);
    assert t[|dir| + 1..] == name && t[..|dir|] == dir;
  }

  /** pathinfo's extension of dir + "/" + stem + "." + ext is ext, when
      neither stem nor ext holds a '/' or a '.'. */
  lemma ExtensionOfJoin(dir: string, stem: string, ext: string)
    requires '/' !in stem && '.' !in stem && '/' !in ext && '.' !in ext
    ensures Extension(dir + "/" + (stem + "." + ext)) == ext
  {
    var name := stem + "." + ext;
    forall k | 0 <= k < |name| ensures name[k] != '/' && (k != |stem| ==> name[k] != '.') {
      if k < |stem| {
        assert name[k] == stem[k];
      } else if k > |stem| {
        assert name[k] == ext[k - |stem| - 1];
      }
    }
    BasenameOfJoin(dir, name);
    LastIndexOfChar(name, '.', |stem|);
    assert name[|stem| + 1..] == ext;
  }

  /** The extension of a path whose basename has its last '.' at k is what follows it. */
  lemma ExtensionAfterLastDot(p: string, name: string, k: nat)
    requires Basename(p) == name && k < |name| && name[k] == '.'
    requires forall j :: k < j < |name| ==> name[j] != '.'
    ensures Extension(p) == name[k + 1..]
  {
    LastIndexOfChar(name, '.', k);
  }

  /** The last occurrence of a one-character needle is the last position holding it. */
  lemma LastIndexOfChar(s: string, c: char, k: nat)
    requires k < |s| && s[k] == c
    requires forall j :: k < j < |s| ==> s[j] != c
    ensures LastIndexOf(s, [c]) == Some(k)
  {
    assert OccursAt(s, [c], k) by {
      assert s[k..k + 1] == [c];
    }
    forall j | k < j <= |s| ensures !OccursAt(s, [c], j) {
      if j < |s| {
        assert s[j..j + 1][0] == s[j];
      }
    }
  }

  /** The first occurrence of a one-character needle is the first position holding it. */
  lemma IndexOfChar(s: string, c: char, k: nat)
    requires k < |s| && s[k] == c
    requires forall j :: 0 <= j < k ==> s[j] != c
    ensures IndexOf(s, [c]) == Some(k)
  {
    assert OccursAt(s, [c], k) by {
      assert s[k..k + 1] == [c];
    }
    forall j | 0 <= j < k ensures !OccursAt(s, [c], j) {
      assert s[j..j + 1][0] == s[j];
    }
  }

  /** Str::after on a subject that starts with the needle drops exactly the needle. */
  lemma AfterPrefix(pre: string, rest: string)
    requires pre != []
    ensures After(pre + rest, pre) == rest
  {
    assert OccursAt(pre + rest, pre, 0) by {
      assert (pre + rest)[0..|pre|] == pre;
    }
    assert IndexOf(pre + rest, pre) == Some(0);
    assert (pre + rest)[|pre|..] == rest;
  }

  /** The digit run at the head of d + rest is d when rest does not start with a digit. */
  lemma {:induction false} DigitsThenOther(d: string, rest: string)
    requires AllDigits(d)
    requires rest == [] || !IsDigit(rest[0])
    ensures DigitPrefix(d + rest) == d
    decreases |d|
  {
    if d != [] {
      assert (d + rest)[1..] == d[1..] + rest;
      DigitsThenOther(d[1..], rest);
      assert [d[0]] + d[1..] == d;
    } else {
      assert d + rest == rest;
    }
  }
}
