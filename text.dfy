/**
 * The JavaScript string operations the renderers are built from: `Array.prototype.join`,
 * `String.prototype.slice`, the emptiness test of `s.trim()`, decimal `String(n)` and
 * `JSON.stringify` applied to a string.
 */
module Text {

  // ---------------------------------------------------------------------------------------------
  // join, concatenation, prefixes and substrings

  /** `parts.join(sep)`: the empty list gives "", one part gives that part. */
  function Join(parts: seq<string>, sep: string): string
  {
    if |parts| == 0 then ""
    else if |parts| == 1 then parts[0]
    else parts[0] + sep + Join(parts[1..], sep)
  }

  /** Appending one part to a non-empty list appends the separator and the part. */
  lemma {:induction false} JoinSnoc(parts: seq<string>, last: string, sep: string)
    ensures Join(parts + [last], sep) == if parts == [] then last else Join(parts, sep) + sep + last
  {
    if |parts| > 1 {
      assert (parts + [last])[1..] == parts[1..] + [last];
      JoinSnoc(parts[1..], last, sep);
    } else if |parts| == 1 {
      assert (parts + [last])[1..] == [last];
    }
  }

  /** The concatenation of all parts, in order (the source's `output += ...` loops). */
  function Concat(parts: seq<string>): string
  {
    if parts == [] then "" else Concat(parts[..|parts| - 1]) + parts[|parts| - 1]
  }

  lemma ConcatSnoc(parts: seq<string>, last: string)
    ensures Concat(parts + [last]) == Concat(parts) + last
  {
    assert (parts + [last])[..|parts|] == parts;
  }

  predicate StartsWith(s: string, prefix: string)
  {
    |prefix| <= |s| && s[..|prefix|] == prefix
  }

  predicate EndsWith(s: string, suffix: string)
  {
    |suffix| <= |s| && s[|s| - |suffix|..] == suffix
  }

  /** A concatenation starts with its first part and ends with its last. */
  lemma ConcatEnds(first: string, middle: string, last: string)
    ensures StartsWith(first + middle + last, first)
    ensures EndsWith(first + middle + last, last)
  {
    var t := first + middle + last;
    assert t[..|first|] == first;
    assert t[|t| - |last|..] == last;
  }

  /** `s.includes(part)`. */
  predicate Contains(s: string, part: string)
  {
    exists i :: 0 <= i <= |s| - |part| && StartsWith(s[i..], part)
  }

  // ---------------------------------------------------------------------------------------------
  // whitespace: `Boolean(s) && s.trim().length > 0` is false exactly for the blank strings

  /** ECMAScript WhiteSpace and LineTerminator code points, which `trim` removes. */
  predicate IsWhitespace(c: char)
  {
    c == '\t' || c == '\n' || c == '\U{000B}' || c == '\U{000C}' || c == '\r' || c == ' '
    || c == '\U{00A0}' || c == '\U{1680}' || ('\U{2000}' <= c <= '\U{200A}')
    || c == '\U{2028}' || c == '\U{2029}' || c == '\U{202F}' || c == '\U{205F}'
    || c == '\U{3000}' || c == '\U{FEFF}'
  }

  /** Empty or whitespace-only: what the union branch drops. */
  predicate IsBlank(s: string)
  {
    forall i :: 0 <= i < |s| ==> IsWhitespace(s[i])
  }

  /** `xs.filter((s) => Boolean(s) && s.trim().length > 0)`. */
  function KeepNonBlank(xs: seq<string>): seq<string>
  {
    if xs == [] then []
    else KeepNonBlank(xs[..|xs| - 1]) + (if IsBlank(xs[|xs| - 1]) then [] else [xs[|xs| - 1]])
  }

  /** The filter keeps exactly the non-blank parts: none of what it keeps is blank, every
      non-blank input survives, and it never invents a part. */
  lemma {:induction false} KeepNonBlankMembers(xs: seq<string>)
    ensures forall x :: x in KeepNonBlank(xs) <==> x in xs && !IsBlank(x)
    ensures |KeepNonBlank(xs)| <= |xs|
  {
    if xs != [] {
      var init := xs[..|xs| - 1];
      KeepNonBlankMembers(init);
      assert xs == init + [xs[|xs| - 1]];
    }
  }

  /** When no part is blank the filter changes nothing. */
  lemma {:induction false} KeepNonBlankIdentity(xs: seq<string>)
    requires forall i :: 0 <= i < |xs| ==> !IsBlank(xs[i])
    ensures KeepNonBlank(xs) == xs
  {
    if xs != [] {
      KeepNonBlankIdentity(xs[..|xs| - 1]);
      assert xs == xs[..|xs| - 1] + [xs[|xs| - 1]];
    }
  }

  /** When every part is blank nothing is left. */
  lemma {:induction false} KeepNonBlankAllBlank(xs: seq<string>)
    requires forall i :: 0 <= i < |xs| ==> IsBlank(xs[i])
    ensures KeepNonBlank(xs) == []
  {
    if xs != [] {
      KeepNonBlankAllBlank(xs[..|xs| - 1]);
    }
  }

  // ---------------------------------------------------------------------------------------------
  // decimal numbers

  predicate IsDigit(c: char)
  {
    '0' <= c <= '9'
  }

  predicate AllDigits(s: string)
  {
    forall i :: 0 <= i < |s| ==> IsDigit(s[i])
  }

  function DigitChar(d: nat): (c: char)
    requires d < 10
    ensures IsDigit(c) && c as int - '0' as int == d
  {
    ('0' as int + d) as char
  }

  /** `String(n)` for a non-negative integer: its decimal digits, without leading zeros. */
  function NatToString(n: nat): (r: string)
    ensures |r| >= 1 && AllDigits(r)
    ensures r[0] == '0' ==> n == 0
    decreases n
  {
    if n < 10 then [DigitChar(n)] else NatToString(n / 10) + [DigitChar(n % 10)]
  }

  /** The value of a string of decimal digits. */
  function DigitsValue(s: string): nat
    requires AllDigits(s)
  {
    if s == [] then 0 else DigitsValue(s[..|s| - 1]) * 10 + (s[|s| - 1] as int - '0' as int)
  }

  /** Reading back what `NatToString` wrote gives the number again. */
  lemma {:induction false} NatToStringRoundTrip(n: nat)
    ensures DigitsValue(NatToString(n)) == n
    decreases n
  {
    if n >= 10 {
      NatToStringRoundTrip(n / 10);
      var s := NatToString(n);
      assert s[..|s| - 1] == NatToString(n / 10);
    }
  }

  /** `String(i)` for an integer: a minus sign before the digits of a negative number. */
  function IntToString(i: int): string
  {
    if i < 0 then "-" + NatToString(-i) else NatToString(i)
  }

  // ---------------------------------------------------------------------------------------------
  // slice with JavaScript's index rules

  /** A `slice` bound: negative counts from the end, and both ends are clamped to `[0, len]`. */
  function RelativeIndex(i: int, len: nat): (r: nat)
    ensures r <= len
    ensures 0 <= i <= len ==> r == i
    ensures i < 0 && len + i >= 0 ==> r == len + i
  {
    if i < 0 then (if len + i < 0 then 0 else len + i) else if i > len then len else i
  }

  /** `s.slice(start, end)` on strings and arrays. */
  function Slice<T>(s: seq<T>, start: int, end: int): seq<T>
  {
    var from := RelativeIndex(start, |s|);
    var to := RelativeIndex(end, |s|);
    if from < to then s[from..to] else []
  }

  /** `s.slice(-n)` for `n >= 1`: the last `n` characters, or all of `s` when it is shorter. */
  lemma SliceLast<T>(s: seq<T>, n: nat)
    requires n >= 1
    ensures Slice(s, -(n as int), |s|) == if n <= |s| then s[|s| - n..] else s
  {
  }

  // ---------------------------------------------------------------------------------------------
  // JSON.stringify on a string

  function HexDigit(d: nat): char
    requires d < 16
  {
    "0123456789abcdef"[d]
  }

  /** The JSON escape of one character: quote, backslash and control characters are escaped. */
  function EscapeChar(c: char): string
  {
    if c == '"' then "\\\""
    else if c == '\\' then "\\\\"
    else if c == '\U{0008}' then "\\b"
    else if c == '\U{000C}' then "\\f"
    else if c == '\n' then "\\n"
    else if c == '\r' then "\\r"
    else if c == '\t' then "\\t"
    else if c < ' ' then "\\u00" + [HexDigit(c as int / 16), HexDigit(c as int % 16)]
    else [c]
  }

  function Escape(s: string): string
  {
    if s == [] then "" else Escape(s[..|s| - 1]) + EscapeChar(s[|s| - 1])
  }

  /** `JSON.stringify(s)` for a string `s`. */
  function JsonQuote(s: string): (r: string)
  {
    "\"" + Escape(s) + "\""
  }

  /** A string with no quote, backslash or control character is quoted verbatim. */
  lemma {:induction false} JsonQuotePlain(s: string)
    requires forall i :: 0 <= i < |s| ==> s[i] != '"' && s[i] != '\\' && s[i] >= ' '
    ensures JsonQuote(s) == "\"" + s + "\""
  {
    EscapePlain(s);
  }

  lemma {:induction false} EscapePlain(s: string)
    requires forall i :: 0 <= i < |s| ==> s[i] != '"' && s[i] != '\\' && s[i] >= ' '
    ensures Escape(s) == s
  {
    if s != [] {
      EscapePlain(s[..|s| - 1]);
      assert EscapeChar(s[|s| - 1]) == [s[|s| - 1]];
      assert s == s[..|s| - 1] + [s[|s| - 1]];
    }
  }
}
