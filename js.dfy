/** The behaviour of the JavaScript built-ins the chat code relies on, stated over
    `string` (a sequence of `char`): whitespace, `trim`, `split`, `startsWith`,
    ASCII `toUpperCase`, `Number.prototype.toString` for non-negative integers and
    `parseInt` with no radix argument. */
module Js {

  /** The characters `\s` matches in a regular expression, which are also the ones
      `String.prototype.trim` and `parseInt` skip: the WhiteSpace and LineTerminator
      code points of ECMAScript. */
  predicate IsSpace(c: char) {
    || c == ' ' || c == '\t' || c == '\n' || c == '\r' || c == '\U{B}' || c == '\U{C}'
    || c == '\U{A0}' || c == '\U{1680}' || ('\U{2000}' <= c <= '\U{200A}')
    || c == '\U{2028}' || c == '\U{2029}' || c == '\U{202F}' || c == '\U{205F}'
    || c == '\U{3000}' || c == '\U{FEFF}'
  }

  /** `s` with its leading whitespace removed. */
  function TrimStart(s: string): (r: string)
    ensures |r| <= |s| && r == s[|s| - |r|..]
    ensures forall i :: 0 <= i < |s| - |r| ==> IsSpace(s[i])
    ensures r == [] || !IsSpace(r[0])
  {
    if s != [] && IsSpace(s[0]) then TrimStart(s[1..]) else s
  }

  /** `s` with its trailing whitespace removed. */
  function TrimEnd(s: string): (r: string)
    ensures |r| <= |s| && r == s[..|r|]
    ensures forall i :: |r| <= i < |s| ==> IsSpace(s[i])
    ensures r == [] || !IsSpace(r[|r| - 1])
  {
    if s != [] && IsSpace(s[|s| - 1]) then TrimEnd(s[..|s| - 1]) else s
  }

  /** `s.trim()`: the slice of `s` left once its leading and trailing whitespace
      is removed; it neither starts nor ends with whitespace, and it is empty
      exactly when `s` is all whitespace. */
  function Trim(s: string): (r: string)
    ensures r == [] <==> forall i :: 0 <= i < |s| ==> IsSpace(s[i])
    ensures r != [] ==> !IsSpace(r[0]) && !IsSpace(r[|r| - 1])
    ensures |r| <= |s|
  {
    TrimEnd(TrimStart(s))
  }

  /** What `trim` returns is `s` with its leading and trailing whitespace cut
      off: some position `k` strips `s` to the result. Stated apart from `Trim`
      so that the many callers of `Trim` do not carry the quantifiers. */
  lemma TrimStrips(s: string)
    ensures exists k :: StrippedAt(s, Trim(s), k)
  {
    var t := TrimStart(s);
    var r := TrimEnd(t);
    var k := |s| - |t|;
    PrefixOfSuffix(s, t, r);
    assert forall i :: 0 <= i < k ==> IsSpace(s[i]);
    forall i | k + |r| <= i < |s| ensures IsSpace(s[i]) {
      assert |r| <= i - k < |t|;
    }
    assert StrippedAt(s, r, k);
    assert r == Trim(s);
  }

  /** A prefix `r` of a suffix `t` of `s` is the slice of `s` where `t` starts. */
  lemma PrefixOfSuffix(s: string, t: string, r: string)
    requires |t| <= |s| && t == s[|s| - |t|..]
    requires |r| <= |t| && r == t[..|r|]
    ensures var k := |s| - |t|; forall i :: k <= i < |s| ==> s[i] == t[i - k]
    ensures var k := |s| - |t|; k + |r| <= |s| && r == s[k..k + |r|]
  {
  }

  /** `r` is the part of `s` from position `k` on, with only whitespace before
      it and after it. */
  predicate StrippedAt(s: string, r: string, k: nat) {
    && k + |r| <= |s| && r == s[k..k + |r|]
    && (forall i :: 0 <= i < k ==> IsSpace(s[i]))
    && (forall i :: k + |r| <= i < |s| ==> IsSpace(s[i]))
  }

  /** `s.split(sep)` for a one-character separator: the maximal runs between
      separators, including empty ones, in order. */
  function Split(s: string, sep: char): (parts: seq<string>)
    ensures |parts| >= 1
    ensures forall k :: 0 <= k < |parts| ==> sep !in parts[k]
  {
    if s == [] then [[]]
    else
      var rest := Split(s[1..], sep);
      if s[0] == sep then [[]] + rest else [[s[0]] + rest[0]] + rest[1..]
  }

  /** `parts.join(sep)`. */
  function Join(parts: seq<string>, sep: char): string
    requires |parts| >= 1
  {
    if |parts| == 1 then parts[0] else parts[0] + [sep] + Join(parts[1..], sep)
  }

  /** Splitting and re-joining on the same separator gives back the string. */
  lemma {:induction false} JoinSplit(s: string, sep: char)
    ensures Join(Split(s, sep), sep) == s
  {
    if s != [] {
      var rest := Split(s[1..], sep);
      JoinSplit(s[1..], sep);
      if s[0] == sep {
        assert ([[]] + rest)[1..] == rest;
      } else if |rest| > 1 {
        assert ([[s[0]] + rest[0]] + rest[1..])[1..] == rest[1..];
      }
    }
  }

  /** A string without the separator is one field. */
  lemma {:induction false} SplitWithoutSeparator(s: string, sep: char)
    requires sep !in s
    ensures Split(s, sep) == [s]
  {
    if s != [] {
      assert sep !in s[1..] by {
        forall k | 0 <= k < |s| - 1 ensures s[1..][k] != sep { assert s[1..][k] == s[k + 1]; }
      }
      SplitWithoutSeparator(s[1..], sep);
      assert [s[0]] + s[1..] == s;
    }
  }

  /** The text before the first separator is the first field; the rest is split again. */
  lemma {:induction false} SplitAtFirst(a: string, sep: char, b: string)
    requires sep !in a
    ensures Split(a + [sep] + b, sep) == [a] + Split(b, sep)
  {
    if a != [] {
      assert (a + [sep] + b)[1..] == a[1..] + [sep] + b;
      assert sep !in a[1..] by {
        forall k | 0 <= k < |a| - 1 ensures a[1..][k] != sep { assert a[1..][k] == a[k + 1]; }
      }
      SplitAtFirst(a[1..], sep, b);
      assert [a[0]] + a[1..] == a;
    } else {
      assert a + [sep] + b == [sep] + b;
      assert ([sep] + b)[1..] == b;
    }
  }

  /** `s.startsWith(p)`. */
  predicate StartsWith(s: string, p: string) {
    |p| <= |s| && s[..|p|] == p
  }

  /** `c.toUpperCase()` for ASCII letters; every other character is kept. */
  function UpperChar(c: char): (u: char)
    ensures 'a' <= c <= 'z' ==> u as int == c as int - 32
    ensures !('a' <= c <= 'z') ==> u == c
  {
    if 'a' <= c <= 'z' then (c as int - 32) as char else c
  }

  /** `s.toUpperCase()` with the ASCII mapping of `UpperChar`, one character per
      character. */
  function Upper(s: string): (u: string)
    ensures |u| == |s| && forall i :: 0 <= i < |s| ==> u[i] == UpperChar(s[i])
  {
    if s == [] then [] else [UpperChar(s[0])] + Upper(s[1..])
  }

  predicate IsDigit(c: char) {
    '0' <= c <= '9'
  }

  /** The digit value of `c` in base 16 (`0`-`9`, `a`-`f`, `A`-`F`), or -1. */
  function HexValue(c: char): (v: int)
    ensures -1 <= v < 16
    ensures IsDigit(c) <==> 0 <= v < 10
    ensures IsDigit(c) ==> v == c as int - '0' as int
  {
    if '0' <= c <= '9' then c as int - '0' as int
    else if 'a' <= c <= 'f' then c as int - 'a' as int + 10
    else if 'A' <= c <= 'F' then c as int - 'A' as int + 10
    else -1
  }

  predicate IsDigitIn(c: char, radix: nat) {
    0 <= HexValue(c) < radix
  }

  function DigitChar(d: nat): (c: char)
    requires d < 10
    ensures IsDigit(c) && HexValue(c) == d
  {
    ('0' as int + d) as char
  }

  /** `n.toString()` for a non-negative integer: decimal digits without leading zeros. */
  function NatToString(n: nat): (s: string)
    ensures s != [] && forall i :: 0 <= i < |s| ==> IsDigit(s[i])
    ensures |s| > 1 ==> s[0] != '0'
  {
    if n < 10 then [DigitChar(n)] else NatToString(n / 10) + [DigitChar(n % 10)]
  }

  /** The number of leading characters of `s` that are digits in base `radix`. */
  function DigitPrefix(s: string, radix: nat): (n: nat)
    ensures n <= |s|
    ensures forall i :: 0 <= i < n ==> IsDigitIn(s[i], radix)
    ensures n < |s| ==> !IsDigitIn(s[n], radix)
  {
    if s != [] && IsDigitIn(s[0], radix) then 1 + DigitPrefix(s[1..], radix) else 0
  }

  /** The value of a string of base-`radix` digits, most significant first. */
  function DigitsValue(s: string, radix: nat): nat
    requires forall i :: 0 <= i < |s| ==> IsDigitIn(s[i], radix)
  {
    if s == [] then 0
    else
      var init := s[..|s| - 1];
      var last := s[|s| - 1];
      assert IsDigitIn(last, radix);
      var high: nat := DigitsValue(init, radix);
      var scaled: nat := Scale(high, radix);
      scaled + HexValue(last)
  }

  /** `a * b` for naturals, kept out of line so that the non-linear product does not
      enter the proofs that use it. */
  function Scale(a: nat, b: nat): (p: nat)
  {
    a * b
  }

  datatype Number = NaN | Int(value: int)

  /** `parseInt(s)` with no radix: skip leading whitespace, read an optional sign,
      read base 16 after a `0x`/`0X` prefix and base 10 otherwise, and stop at the
      first character that is not a digit; no digit at all gives NaN. */
  function ParseInt(s: string): (r: Number)
    ensures TrimStart(s) == [] || !(IsDigit(TrimStart(s)[0]) || TrimStart(s)[0] == '-' || TrimStart(s)[0] == '+')
      ==> r == NaN
    ensures r.Int? && r.value < 0 ==> TrimStart(s) != [] && TrimStart(s)[0] == '-'
  {
    var t := TrimStart(s);
    if t != [] && (t[0] == '-' || t[0] == '+') then
      match Magnitude(t[1..])
      case NaN => NaN
      case Int(v) => Int(if t[0] == '-' then -v else v)
    else Magnitude(t)
  }

  /** The unsigned part of `parseInt`: base 16 after `0x`/`0X`, base 10
      otherwise, up to the first character that is not a digit. */
  function Magnitude(u: string): (r: Number)
    ensures r.Int? ==> r.value >= 0
  {
    var hex := |u| >= 2 && u[0] == '0' && (u[1] == 'x' || u[1] == 'X');
    var radix := if hex then 16 else 10;
    var w := if hex then u[2..] else u;
    var n := DigitPrefix(w, radix);
    if n == 0 then NaN else Int(DigitsValue(w[..n], radix))
  }

  lemma {:induction false} DecimalValue(n: nat)
    ensures DigitsValue(NatToString(n), 10) == n
  {
    if n >= 10 {
      var s := NatToString(n / 10);
      var t := s + [DigitChar(n % 10)];
      assert t[..|t| - 1] == s;
      DecimalValue(n / 10);
    }
  }

  /** Reading back what `toString` wrote gives the same number, also when text
      follows that neither continues the digits nor turns a lone `0` into a
      hexadecimal prefix. */
  lemma ParseIntOfNumeral(n: nat, rest: string)
    requires rest == [] || (!IsDigit(rest[0]) && rest[0] != 'x' && rest[0] != 'X')
    ensures ParseInt(NatToString(n) + rest) == Int(n)
  {
    var s := NatToString(n);
    var t := s + rest;
    assert t[0] == s[0] && IsDigit(t[0]);
    NoSpaceAtStart(t);
    assert t[0] != '-' && t[0] != '+';
    MagnitudeOfNumeral(n, rest);
  }

  lemma NoSpaceAtStart(t: string)
    requires t != [] && IsDigit(t[0])
    ensures TrimStart(t) == t
  {
    assert !IsSpace(t[0]);
  }

  lemma MagnitudeOfNumeral(n: nat, rest: string)
    requires rest == [] || (!IsDigit(rest[0]) && rest[0] != 'x' && rest[0] != 'X')
    ensures Magnitude(NatToString(n) + rest) == Int(n)
  {
    var s := NatToString(n);
    var t := s + rest;
    assert t[0] == s[0];
    assert |t| >= 2 && t[0] == '0' ==> |s| == 1 && t[1] == rest[0];
    DigitPrefixOfNumeral(s, rest);
    assert t[..|s|] == s;
    DecimalValue(n);
  }

  /** The digits of `s` are read up to the first non-digit after them. */
  lemma {:induction false} DigitPrefixOfNumeral(s: string, rest: string)
    requires forall i :: 0 <= i < |s| ==> IsDigit(s[i])
    requires rest == [] || !IsDigit(rest[0])
    ensures DigitPrefix(s + rest, 10) == |s|
  {
    if s == [] {
      assert s + rest == rest;
    } else {
      assert (s + rest)[0] == s[0];
      assert (s + rest)[1..] == s[1..] + rest;
      DigitPrefixOfNumeral(s[1..], rest);
    }
  }
}
