/**
 * The JavaScript string primitives the site applies to titles and counts:
 * `trim`, `split` on one character, `join`, and the decimal rendering of a
 * whole number inside a template literal.
 */
module Strings {

  /**
   * The characters `String.prototype.trim` removes: ECMAScript's WhiteSpace
   * (tab, vertical tab, form feed, space, no-break space, the byte order mark
   * and the Unicode space separators) and its LineTerminator characters.
   */
  predicate IsJsWhitespace(c: char)
  {
    c == '\t' || c == '\n' || c == '\U{000B}' || c == '\U{000C}' || c == '\r' || c == ' '
    || c == '\U{00A0}' || c == '\U{1680}' || ('\U{2000}' <= c <= '\U{200A}')
    || c == '\U{2028}' || c == '\U{2029}' || c == '\U{202F}' || c == '\U{205F}'
    || c == '\U{3000}' || c == '\U{FEFF}'
  }

  /** How many whitespace characters `s` starts with. */
  function LeadingWhitespace(s: string): (k: nat)
    ensures k <= |s|
    ensures forall i :: 0 <= i < k ==> IsJsWhitespace(s[i])
    ensures k < |s| ==> !IsJsWhitespace(s[k])
  {
    if |s| > 0 && IsJsWhitespace(s[0]) then 1 + LeadingWhitespace(s[1..]) else 0
  }

  /** How many whitespace characters `s` ends with. */
  function TrailingWhitespace(s: string): (k: nat)
    ensures k <= |s|
    ensures forall i :: |s| - k <= i < |s| ==> IsJsWhitespace(s[i])
    ensures k < |s| ==> !IsJsWhitespace(s[|s| - 1 - k])
  {
    if |s| > 0 && IsJsWhitespace(s[|s| - 1]) then 1 + TrailingWhitespace(s[..|s| - 1]) else 0
  }

  /** `String.prototype.trim`: `s` without its leading and trailing whitespace. */
  function Trim(s: string): (r: string)
    ensures LeadingWhitespace(s) + |r| <= |s|
    ensures r == s[LeadingWhitespace(s)..LeadingWhitespace(s) + |r|]
    ensures forall i :: 0 <= i < LeadingWhitespace(s) ==> IsJsWhitespace(s[i])
    ensures forall i :: LeadingWhitespace(s) + |r| <= i < |s| ==> IsJsWhitespace(s[i])
    ensures r == [] || (!IsJsWhitespace(r[0]) && !IsJsWhitespace(r[|r| - 1]))
  {
    var rest := s[LeadingWhitespace(s)..];
    rest[..|rest| - TrailingWhitespace(rest)]
  }

  /** A string that neither starts nor ends with whitespace is its own trim. */
  lemma TrimmedIsFixed(s: string)
    requires s == [] || (!IsJsWhitespace(s[0]) && !IsJsWhitespace(s[|s| - 1]))
    ensures Trim(s) == s
  {
  }

  /** Reference definition: every `from` in `s` replaced by `to`, nothing else touched. */
  function Replace(s: string, from: char, to: char): (r: string)
  {
    seq(|s|, i requires 0 <= i < |s| => if s[i] == from then to else s[i])
  }

  /**
   * `String.prototype.split` with a one-character separator: the pieces between
   * separators, including empty ones, so there is always one more piece than
   * separators.
   */
  function Split(s: string, sep: char): (parts: seq<string>)
    ensures |parts| >= 1
    ensures forall i :: 0 <= i < |parts| ==> sep !in parts[i]
  {
    if |s| == 0 then [""]
    else
      var rest := Split(s[1..], sep);
      if s[0] == sep then [""] + rest
      else [[s[0]] + rest[0]] + rest[1..]
  }

  /**
   * `Array.prototype.join`: the parts with `sep` between neighbours. The text
   * starts with the first part; `SplitJoinIsIdentity` shows that splitting it
   * again recovers every part.
   */
  function Join(parts: seq<string>, sep: string): (r: string)
    ensures |parts| == 0 ==> r == ""
    ensures |parts| > 0 ==> parts[0] <= r
  {
    if |parts| == 0 then ""
    else if |parts| == 1 then parts[0]
    else parts[0] + sep + Join(parts[1..], sep)
  }

  /** Splitting on one character and joining with another replaces the first by the second. */
  lemma {:induction false} JoinSplitIsReplace(s: string, from: char, to: char)
    ensures Join(Split(s, from), [to]) == Replace(s, from, to)
  {
    if |s| > 0 {
      var rest := Split(s[1..], from);
      JoinSplitIsReplace(s[1..], from, to);
      assert Replace(s, from, to) == [if s[0] == from then to else s[0]] + Replace(s[1..], from, to);
      if s[0] == from {
        assert Split(s, from) == [""] + rest;
        assert Join([""] + rest, [to]) == "" + [to] + Join(rest, [to]);
      } else {
        if |rest| > 1 {
          assert rest == [rest[0]] + rest[1..];
          assert Join(rest, [to]) == rest[0] + [to] + Join(rest[1..], [to]);
        }
      }
    }
  }

  /** Splitting a piece without the separator in front of more text. */
  lemma {:induction false} SplitPrefix(p: string, sep: char, t: string)
    requires sep !in p
    ensures Split(p + t, sep) == [p + Split(t, sep)[0]] + Split(t, sep)[1..]
  {
    if |p| > 0 {
      SplitPrefix(p[1..], sep, t);
      assert (p + t)[1..] == p[1..] + t;
      assert (p + t)[0] == p[0] != sep;
      var rest := Split(p[1..] + t, sep);
      assert Split(p + t, sep) == [[p[0]] + rest[0]] + rest[1..];
      assert [p[0]] + (p[1..] + Split(t, sep)[0]) == p + Split(t, sep)[0];
    } else {
      assert p + t == t;
      assert p + Split(t, sep)[0] == Split(t, sep)[0];
      assert Split(t, sep) == [Split(t, sep)[0]] + Split(t, sep)[1..];
    }
  }

  /** Joining separator-free parts with the separator and splitting again gives the parts back. */
  lemma {:induction false} SplitJoinIsIdentity(parts: seq<string>, sep: char)
    requires |parts| >= 1
    requires forall i :: 0 <= i < |parts| ==> sep !in parts[i]
    ensures Split(Join(parts, [sep]), sep) == parts
  {
    if |parts| == 1 {
      SplitPrefix(parts[0], sep, "");
      assert parts[0] + "" == parts[0];
      assert Split("", sep) == [""];
      assert Join(parts, [sep]) == parts[0];
    } else {
      var tail := Join(parts[1..], [sep]);
      SplitJoinIsIdentity(parts[1..], sep);
      assert Join(parts, [sep]) == parts[0] + ([sep] + tail);
      SplitPrefix(parts[0], sep, [sep] + tail);
      assert ([sep] + tail)[1..] == tail;
      assert Split([sep] + tail, sep) == [""] + parts[1..];
      assert parts[0] + "" == parts[0];
      assert parts == [parts[0]] + parts[1..];
    }
  }

  /** The character for a decimal digit. */
  function DigitChar(d: nat): (c: char)
    requires d < 10
    ensures '0' <= c <= '9'
    ensures c as int - '0' as int == d
  {
    ('0' as int + d) as char
  }

  predicate IsDigits(s: string)
  {
    forall i :: 0 <= i < |s| ==> '0' <= s[i] <= '9'
  }

  /** The decimal digits of `n` with no leading zero, as `${n}` writes a whole number. */
  function NatToString(n: nat): (r: string)
    ensures |r| >= 1 && IsDigits(r)
    ensures n > 0 ==> r[0] != '0'
  {
    if n < 10 then [DigitChar(n)] else NatToString(n / 10) + [DigitChar(n % 10)]
  }

  /** The number a string of decimal digits denotes. */
  function DecimalValue(s: string): (n: nat)
    requires IsDigits(s)
  {
    if |s| == 0 then 0
    else DecimalValue(s[..|s| - 1]) * 10 + (s[|s| - 1] as int - '0' as int)
  }

  /** Reading back the rendered digits gives the number that was rendered. */
  lemma {:induction false} DecimalRoundTrip(n: nat)
    ensures DecimalValue(NatToString(n)) == n
  {
    var r := NatToString(n);
    if n >= 10 {
      DecimalRoundTrip(n / 10);
      assert r[..|r| - 1] == NatToString(n / 10);
    }
  }
}
