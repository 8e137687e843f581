/**
 * The handful of Python string operations the retrieval core relies on:
 * `str.isspace`, `str.strip`, `sep.join(parts)`, `s.split(c)`
 * and decimal rendering of non-negative integers (`str(i)`, `f"{i}"`).
 */
module Strings {
  import opened Prelude

  /** Python's `str.isspace()` for one character (whitespace per the Unicode database). */
  predicate IsSpace(c: char) {
    || c == ' '
    || ('\t' <= c <= '\r')
    || ('\U{1c}' <= c <= '\U{1f}')
    || c == '\U{85}' || c == '\U{a0}' || c == '\U{1680}'
    || ('\U{2000}' <= c <= '\U{200a}')
    || c == '\U{2028}' || c == '\U{2029}' || c == '\U{202f}' || c == '\U{205f}' || c == '\U{3000}'
  }

  /** Every character of `s` is whitespace (vacuously true of ""). */
  predicate Blank(s: string) {
    forall i | 0 <= i < |s| :: IsSpace(s[i])
  }

  lemma BlankConcat(a: string, b: string)
    ensures Blank(a + b) <==> Blank(a) && Blank(b)
  {
    if Blank(a + b) {
      forall i | 0 <= i < |a| ensures IsSpace(a[i]) { assert a[i] == (a + b)[i]; }
      forall i | 0 <= i < |b| ensures IsSpace(b[i]) { assert b[i] == (a + b)[|a| + i]; }
    }
  }

  /**
   * `s.strip()`: `s` with its leading and trailing whitespace removed, one
   * character at a time. `StripSlice` and `StripBlank` state what it yields.
   */
  function Strip(s: string): string
    decreases |s|
  {
    if s != [] && IsSpace(s[0]) then Strip(s[1..])
    else if s != [] && IsSpace(s[|s| - 1]) then Strip(s[..|s| - 1])
    else s
  }

  /**
   * The stripped text is a slice of `s` between a blank prefix and a blank
   * suffix; with `StripEnds` it is the longest such trimming.
   */
  lemma {:induction false} StripSlice(s: string)
    ensures exists i, j :: 0 <= i <= j <= |s| && Strip(s) == s[i..j] && Blank(s[..i]) && Blank(s[j..])
    decreases |s|
  {
    if s != [] && IsSpace(s[0]) {
      StripSlice(s[1..]);
      var i, j :| 0 <= i <= j <= |s[1..]| && Strip(s[1..]) == s[1..][i..j] && Blank(s[1..][..i]) && Blank(s[1..][j..]);
      WidenFront(s, i, j);
    } else if s != [] && IsSpace(s[|s| - 1]) {
      var t := s[..|s| - 1];
      StripSlice(t);
      var i, j :| 0 <= i <= j <= |t| && Strip(t) == t[i..j] && Blank(t[..i]) && Blank(t[j..]);
      WidenBack(s, i, j);
    } else {
      assert Strip(s) == s[0..|s|] && Blank(s[..0]) && Blank(s[|s|..]);
    }
  }

  /** A blank-bounded slice of `s[1..]` is one of `s` when `s[0]` is whitespace. */
  lemma WidenFront(s: string, i: nat, j: nat)
    requires s != [] && IsSpace(s[0]) && i <= j <= |s| - 1
    requires Blank(s[1..][..i]) && Blank(s[1..][j..])
    ensures s[1..][i..j] == s[i + 1..j + 1] && Blank(s[..i + 1]) && Blank(s[j + 1..])
  {
    assert s[..i + 1] == [s[0]] + s[1..][..i];
    BlankConcat([s[0]], s[1..][..i]);
    assert s[j + 1..] == s[1..][j..];
  }

  /** A blank-bounded slice of `s` without its last character is one of `s` when that character is whitespace. */
  lemma WidenBack(s: string, i: nat, j: nat)
    requires s != [] && IsSpace(s[|s| - 1]) && i <= j <= |s| - 1
    requires Blank(s[..|s| - 1][..i]) && Blank(s[..|s| - 1][j..])
    ensures s[..|s| - 1][i..j] == s[i..j] && Blank(s[..i]) && Blank(s[j..])
  {
    var t := s[..|s| - 1];
    assert s[..i] == t[..i];
    assert s[j..] == t[j..] + [s[|s| - 1]];
    BlankConcat(t[j..], [s[|s| - 1]]);
  }

  /** A non-empty stripped text neither starts nor ends with whitespace. */
  lemma {:induction false} StripEnds(s: string)
    ensures Strip(s) != [] ==> !IsSpace(Strip(s)[0]) && !IsSpace(Strip(s)[|Strip(s)| - 1])
    decreases |s|
  {
    if s != [] && IsSpace(s[0]) {
      StripEnds(s[1..]);
    } else if s != [] && IsSpace(s[|s| - 1]) {
      StripEnds(s[..|s| - 1]);
    }
  }

  /** Stripping leaves nothing exactly when the text is all whitespace. */
  lemma {:induction false} StripBlank(s: string)
    ensures Strip(s) == [] <==> Blank(s)
    decreases |s|
  {
    if s != [] && IsSpace(s[0]) {
      StripBlank(s[1..]);
      assert s == [s[0]] + s[1..];
      BlankConcat([s[0]], s[1..]);
    } else if s != [] && IsSpace(s[|s| - 1]) {
      StripBlank(s[..|s| - 1]);
      assert s == s[..|s| - 1] + [s[|s| - 1]];
      BlankConcat(s[..|s| - 1], [s[|s| - 1]]);
    }
  }

  /** Python's `sep.join(parts)`. */
  function Join(parts: seq<string>, sep: string): string
  {
    if |parts| == 0 then ""
    else if |parts| == 1 then parts[0]
    else parts[0] + sep + Join(parts[1..], sep)
  }

  /** With a blank separator, the joined text is blank exactly when every part is. */
  lemma {:induction false} BlankJoin(parts: seq<string>, sep: string)
    requires Blank(sep)
    ensures Blank(Join(parts, sep)) <==> forall i | 0 <= i < |parts| :: Blank(parts[i])
  {
    if |parts| > 1 {
      BlankJoin(parts[1..], sep);
      BlankConcat(parts[0], sep);
      BlankConcat(parts[0] + sep, Join(parts[1..], sep));
      assert forall i | 1 <= i < |parts| :: parts[i] == parts[1..][i - 1];
    }
  }

  /** Python's `s.split(c)` for a one-character separator; `"".split(c) == [""]`. */
  function Split(s: string, c: char): (parts: seq<string>)
    ensures |parts| >= 1
    ensures forall i | 0 <= i < |parts| :: c !in parts[i]
    decreases |s|
  {
    if c in s then
      var i := IndexOf(s, c);
      [s[..i]] + Split(s[i + 1..], c)
    else [s]
  }

  /** Splitting a joined text on its separator gives back the parts, when no part holds the separator. */
  lemma {:induction false} SplitJoin(parts: seq<string>, c: char)
    requires |parts| >= 1
    requires forall i | 0 <= i < |parts| :: c !in parts[i]
    ensures Split(Join(parts, [c]), c) == parts
  {
    if |parts| > 1 {
      var s := Join(parts, [c]);
      var p := parts[0];
      assert s == p + [c] + Join(parts[1..], [c]);
      assert s[..|p|] == p;
      assert s[|p|] == c;
      var i := IndexOf(s, c);
      assert i == |p|;
      assert s[i + 1..] == Join(parts[1..], [c]);
      SplitJoin(parts[1..], c);
      assert parts == [p] + parts[1..];
    }
  }

  /** Joining a part in front of at least one more adds the part and a separator. */
  lemma JoinCons(head: string, rest: seq<string>, sep: string)
    requires |rest| >= 1
    ensures Join([head] + rest, sep) == head + sep + Join(rest, sep)
  {
    assert ([head] + rest)[1..] == rest;
  }

  /** Joining the pieces of a split on the same separator gives back the text. */
  lemma {:induction false} JoinSplit(s: string, c: char)
    ensures Join(Split(s, c), [c]) == s
    decreases |s|
  {
    if c in s {
      var i := IndexOf(s, c);
      var head, tail := s[..i], s[i + 1..];
      var rest := Split(tail, c);
      JoinSplit(tail, c);
      assert Split(s, c) == [head] + rest;
      JoinCons(head, rest, [c]);
      assert s == head + [c] + tail;
    }
  }

  predicate IsDigit(c: char) {
    '0' <= c <= '9'
  }

  predicate IsDigits(s: string) {
    forall i | 0 <= i < |s| :: IsDigit(s[i])
  }

  function DigitChar(d: nat): (c: char)
    requires d < 10
    ensures IsDigit(c)
  {
    (48 + d) as char
  }

  /** Value of a decimal digit string (leading zeros allowed, "" reads as 0). */
  function ParseNat(s: string): nat
    requires IsDigits(s)
  {
    if s == [] then 0
    else ParseNat(s[..|s| - 1]) * 10 + (s[|s| - 1] as int - 48)
  }

  /** Python's `str(n)` for a non-negative integer: decimal digits, no leading zero. */
  function NatToString(n: nat): (s: string)
    ensures |s| >= 1 && IsDigits(s)
    ensures |s| == 1 <==> n < 10
    ensures |s| <= 2 <==> n < 100
    ensures |s| > 1 ==> s[0] != '0'
  {
    if n < 10 then [DigitChar(n)]
    else NatToString(n / 10) + [DigitChar(n % 10)]
  }

  /** Reading back a rendered number gives the number. */
  lemma {:induction false} ParseNatToString(n: nat)
    ensures ParseNat(NatToString(n)) == n
  {
    if n >= 10 {
      var s := NatToString(n);
      ParseNatToString(n / 10);
      assert s[..|s| - 1] == NatToString(n / 10);
    }
  }

  /** Different numbers render differently. */
  lemma NatToStringInjective(a: nat, b: nat)
    ensures NatToString(a) == NatToString(b) ==> a == b
  {
    ParseNatToString(a);
    ParseNatToString(b);
  }
}
