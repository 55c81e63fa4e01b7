/**
 * Character classes, trimming, decimal numerals and line splitting as the
 * JavaScript and Python sources use them. Strings are sequences of code
 * points; nothing here depends on an encoding.
 */
module Text {

  /** The characters JavaScript's `.` refuses to match (ECMAScript LineTerminator). */
  predicate IsLineTerminator(c: char) {
    c == '\n' || c == '\r' || c == '\U{2028}' || c == '\U{2029}'
  }

  /** ECMAScript WhiteSpace plus LineTerminator: the class `\s` and the set `trim` removes. */
  predicate IsSpace(c: char) {
    || IsLineTerminator(c)
    || c == '\t' || c == '\U{000B}' || c == '\U{000C}' || c == ' '
    || c == '\U{00A0}' || c == '\U{FEFF}' || c == '\U{1680}'
    || ('\U{2000}' <= c <= '\U{200A}')
    || c == '\U{202F}' || c == '\U{205F}' || c == '\U{3000}'
  }

  /** The class `\d`: ASCII digits only. */
  predicate IsDigit(c: char) {
    '0' <= c <= '9'
  }

  predicate AllDigits(s: string) {
    forall i :: 0 <= i < |s| ==> IsDigit(s[i])
  }

  /** The characters of a decimal number's text: a digit first, then digits and points. */
  predicate NumeralChars(t: string) {
    |t| >= 1 && IsDigit(t[0]) && forall i :: 0 <= i < |t| ==> IsDigit(t[i]) || t[i] == '.'
  }

  predicate AllSpace(s: string) {
    forall i :: 0 <= i < |s| ==> IsSpace(s[i])
  }

  /** A string every character of which `.` can match. */
  predicate SingleLine(s: string) {
    forall i :: 0 <= i < |s| ==> !IsLineTerminator(s[i])
  }

  // ---------------------------------------------------------------------------
  // Trimming (String.prototype.trim and its two halves)
  // ---------------------------------------------------------------------------

  /** Drops the leading white space: the result is the longest suffix not starting with a space. */
  function TrimStart(s: string): (r: string)
    ensures |r| <= |s| && r == s[|s| - |r|..]
    ensures forall i :: 0 <= i < |s| - |r| ==> IsSpace(s[i])
    ensures r != [] ==> !IsSpace(r[0])
    decreases |s|
  {
    if s != [] && IsSpace(s[0]) then TrimStart(s[1..]) else s
  }

  /** Nothing is left after the leading white space exactly when the string is all white space. */
  lemma TrimStartEmpty(s: string)
    ensures TrimStart(s) == [] <==> AllSpace(s)
  {
    var t := TrimStart(s);
    if t != [] {
      assert t[0] == s[|s| - |t|];
    }
  }

  /** Leading white space ends no later than the first non-space character. */
  lemma TrimStartStops(s: string, i: nat)
    requires i < |s| && !IsSpace(s[i])
    ensures |s| - |TrimStart(s)| <= i
  {
  }

  /** One space in front of a string that starts with a non-space is exactly what `TrimStart` drops. */
  lemma TrimStartOneSpace(w: string)
    requires w != [] && !IsSpace(w[0])
    ensures TrimStart(" " + w) == w
  {
    assert (" " + w)[1..] == w;
  }

  /** Digits after digits are digits. */
  lemma AllDigitsConcat(a: string, b: string)
    requires AllDigits(a) && AllDigits(b)
    ensures AllDigits(a + b)
  {
    forall i | 0 <= i < |a + b| ensures IsDigit((a + b)[i]) {
      if i >= |a| {
        assert (a + b)[i] == b[i - |a|];
      }
    }
  }

  /** Text made of single lines is a single line. */
  lemma SingleLineConcat(a: string, b: string)
    requires SingleLine(a) && SingleLine(b)
    ensures SingleLine(a + b)
  {
    forall i | 0 <= i < |a + b| ensures !IsLineTerminator((a + b)[i]) {
      if i >= |a| {
        assert (a + b)[i] == b[i - |a|];
      }
    }
  }

  /** Drops the trailing white space: the result is the longest prefix not ending with a space. */
  function TrimEnd(s: string): (r: string)
    ensures |r| <= |s| && r == s[..|r|]
    ensures forall i :: |r| <= i < |s| ==> IsSpace(s[i])
    ensures r != [] ==> !IsSpace(r[|r| - 1])
    decreases |s|
  {
    if s != [] && IsSpace(s[|s| - 1]) then TrimEnd(s[..|s| - 1]) else s
  }

  /**
   * `s.trim()`: the part of `s` between white space at its start and white
   * space at its end, beginning and ending with a non-space when non-empty.
   */
  function Trim(s: string): (r: string)
    ensures |r| <= |s|
    ensures r != [] ==> !IsSpace(r[0]) && !IsSpace(r[|r| - 1])
    ensures r == [] <==> AllSpace(s)
    ensures exists i :: TrimmedAt(s, r, i)
  {
    var t := TrimStart(s);
    var r := TrimEnd(t);
    TrimEnds(s, t, r);
    TrimmedSlice(s, t, r, |s| - |t|);
    r
  }

  /** The ends of `TrimEnd(TrimStart(s))`: non-space characters, and nothing left exactly when `s` is all white space. */
  lemma TrimEnds(s: string, t: string, r: string)
    requires t == TrimStart(s) && r == TrimEnd(t)
    ensures |r| <= |s|
    ensures r != [] ==> !IsSpace(r[0]) && !IsSpace(r[|r| - 1])
    ensures r == [] <==> AllSpace(s)
  {
  }

  /** `r` is `s` less white space before position `i` and after `r`. */
  predicate TrimmedAt(s: string, r: string, i: int) {
    0 <= i <= |s| - |r| && r == s[i..i + |r|] && AllSpace(s[..i]) && AllSpace(s[i + |r|..])
  }

  /** White space before `i` and after `r`, with `r` at `i`: the shape `TrimEnd(TrimStart(s))` has. */
  lemma TrimmedSlice(s: string, t: string, r: string, i: nat)
    requires i <= |s| && t == s[i..] && |r| <= |t| && r == t[..|r|]
    requires forall k :: 0 <= k < i ==> IsSpace(s[k])
    requires forall k :: |r| <= k < |t| ==> IsSpace(t[k])
    ensures TrimmedAt(s, r, i)
  {
    assert r == s[i..i + |r|];
    var head := s[..i];
    forall k | 0 <= k < |head| ensures IsSpace(head[k]) {
      assert head[k] == s[k];
    }
    var tail := s[i + |r|..];
    forall k | 0 <= k < |tail| ensures IsSpace(tail[k]) {
      assert tail[k] == t[|r| + k];
    }
  }

  /** White space appended to a string is what `TrimEnd` drops again. */
  lemma {:induction false} TrimEndAppendSpace(x: string, w: string)
    requires AllSpace(w)
    ensures TrimEnd(x + w) == TrimEnd(x)
    decreases |w|
  {
    if w == [] {
      assert x + w == x;
    } else {
      var init := w[..|w| - 1];
      assert (x + w)[..|x + w| - 1] == x + init;
      assert (x + w)[|x + w| - 1] == w[|w| - 1];
      TrimEndAppendSpace(x, init);
    }
  }

  /** A string ending in a non-space is its own `TrimEnd`. */
  lemma TrimEndKeeps(x: string)
    requires x != [] && !IsSpace(x[|x| - 1])
    ensures TrimEnd(x) == x
  {
  }

  /**
   * `trim` is the only way to cut white space off both ends so that what is
   * left starts and ends with a non-space.
   */
  lemma TrimUnique(s: string, r: string, i: int)
    requires TrimmedAt(s, r, i)
    requires r == [] || (!IsSpace(r[0]) && !IsSpace(r[|r| - 1]))
    ensures Trim(s) == r
  {
    var t := Trim(s);
    var j :| TrimmedAt(s, t, j);
    SpaceOutside(s, r, i);
    if r == [] {
      assert AllSpace(s);
    } else {
      assert s[i] == r[0] && s[i + |r| - 1] == r[|r| - 1];
      assert !AllSpace(s);
      SpaceOutside(s, t, j);
      assert s[j] == t[0] && s[j + |t| - 1] == t[|t| - 1];
      assert i == j && |r| == |t|;
    }
  }

  /** The white space around a trimmed slice, character by character. */
  lemma SpaceOutside(s: string, r: string, i: int)
    requires TrimmedAt(s, r, i)
    ensures forall k :: 0 <= k < i ==> IsSpace(s[k])
    ensures forall k :: i + |r| <= k < |s| ==> IsSpace(s[k])
    ensures forall k :: 0 <= k < |r| ==> r[k] == s[i + k]
  {
    forall k | 0 <= k < i ensures IsSpace(s[k]) {
      assert s[..i][k] == s[k];
    }
    forall k | i + |r| <= k < |s| ensures IsSpace(s[k]) {
      assert s[i + |r|..][k - i - |r|] == s[k];
    }
  }

  /** Trimming the end first changes nothing about the trim. */
  lemma TrimOfTrimEnd(x: string)
    ensures Trim(TrimEnd(x)) == Trim(x)
  {
    var e := TrimEnd(x);
    var r := Trim(e);
    var i :| TrimmedAt(e, r, i);
    TrimmedAtPrefix(x, e, r, i);
    TrimUnique(x, r, i);
  }

  /** A trimmed slice of a prefix is one of the whole string when only white space follows the prefix. */
  lemma TrimmedAtPrefix(x: string, e: string, r: string, i: int)
    requires |e| <= |x| && e == x[..|e|]
    requires forall k :: |e| <= k < |x| ==> IsSpace(x[k])
    requires TrimmedAt(e, r, i)
    ensures TrimmedAt(x, r, i)
  {
    SpaceOutside(e, r, i);
    assert r == x[i..i + |r|];
    var head := x[..i];
    forall k | 0 <= k < |head| ensures IsSpace(head[k]) {
      assert head[k] == e[k];
    }
    var tail := x[i + |r|..];
    forall k | 0 <= k < |tail| ensures IsSpace(tail[k]) {
      assert tail[k] == x[i + |r| + k];
      if i + |r| + k < |e| {
        assert x[i + |r| + k] == e[i + |r| + k];
      }
    }
  }

  /** A string with no white space at either end is its own trim. */
  lemma TrimOfTrimmed(s: string)
    requires s == [] || (!IsSpace(s[0]) && !IsSpace(s[|s| - 1]))
    ensures Trim(s) == s
  {
  }

  // ---------------------------------------------------------------------------
  // Decimal numerals (parseInt, String(n), str(n), padStart(2, '0'))
  // ---------------------------------------------------------------------------

  function DigitValue(c: char): nat
    requires IsDigit(c)
  {
    c as int - '0' as int
  }

  function DigitChar(d: nat): (c: char)
    requires d < 10
    ensures IsDigit(c) && DigitValue(c) == d
  {
    ('0' as int + d) as char
  }

  /** `parseInt(s, 10)` of a string of ASCII digits. */
  function DigitsValue(s: string): nat
    requires AllDigits(s)
    decreases |s|
  {
    if s == [] then 0 else DigitsValue(s[..|s| - 1]) * 10 + DigitValue(s[|s| - 1])
  }

  /** Appending a digit multiplies the value by ten and adds the digit. */
  lemma DigitsValueSnoc(s: string, c: char)
    requires AllDigits(s) && IsDigit(c)
    ensures AllDigits(s + [c])
    ensures DigitsValue(s + [c]) == DigitsValue(s) * 10 + DigitValue(c)
  {
    assert (s + [c])[..|s|] == s;
  }

  /** A two-digit numeral is worth ten times its first digit plus its second. */
  lemma TwoDigitsValue(s: string)
    requires |s| == 2 && AllDigits(s)
    ensures DigitsValue(s) == DigitValue(s[0]) * 10 + DigitValue(s[1]) <= 99
  {
    assert s[..1] == [s[0]];
    assert [s[0]][..0] == [];
    assert DigitsValue([s[0]]) == DigitValue(s[0]);
    assert DigitsValue(s) == DigitsValue(s[..1]) * 10 + DigitValue(s[1]);
  }

  /** The shortest decimal numeral of `n` (JavaScript `String(n)`, Python `str(n)`). */
  function NatToString(n: nat): (r: string)
    ensures 1 <= |r| && AllDigits(r)
    ensures DigitsValue(r) == n
    ensures |r| == 1 <==> n < 10
    ensures n < 100 ==> |r| <= 2
    ensures r[0] == '0' ==> n == 0
    decreases n
  {
    if n < 10 then
      [DigitChar(n)]
    else
      var p := NatToString(n / 10);
      DigitsValueSnoc(p, DigitChar(n % 10));
      p + [DigitChar(n % 10)]
  }

  /** `String(n).padStart(2, '0')`, `%02d`. */
  function Pad2(n: nat): (r: string)
    ensures AllDigits(r) && DigitsValue(r) == n
    ensures n < 100 ==> |r| == 2
    ensures |r| >= 2
    ensures |r| > 2 ==> r[0] != '0'
  {
    if n < 10 then
      var d := NatToString(n);
      DigitsValueSnoc("0", d[0]);
      assert "0" + d == "0" + [d[0]];
      "0" + d
    else
      NatToString(n)
  }

  /** An integer in decimal, with a leading `-` when negative. */
  function IntToString(i: int): (r: string)
    ensures i >= 0 ==> r == NatToString(i)
    ensures i < 0 ==> r == "-" + NatToString(-i)
  {
    if i < 0 then "-" + NatToString(-i) else NatToString(i)
  }

  /** `s.toLowerCase()` on the ASCII letters; every other character is kept. */
  function LowerAscii(s: string): (r: string)
    ensures |r| == |s|
    ensures forall i :: 0 <= i < |s| ==> r[i] == LowerChar(s[i])
  {
    seq(|s|, i requires 0 <= i < |s| => LowerChar(s[i]))
  }

  function LowerChar(c: char): char {
    if 'A' <= c <= 'Z' then (c as int + 32) as char else c
  }

  // ---------------------------------------------------------------------------
  // Lines (`text.split('\n')`, `lines.join('\n')`)
  // ---------------------------------------------------------------------------

  /** `lines.join('\n')`. */
  function JoinLines(ls: seq<string>): string
    requires |ls| >= 1
    decreases |ls|
  {
    if |ls| == 1 then ls[0] else ls[0] + "\n" + JoinLines(ls[1..])
  }

  /** `text.split('\n')`: the pieces between newlines, at least one, joining back to the text. */
  function SplitLines(s: string): (r: seq<string>)
    ensures |r| >= 1
    ensures forall i :: 0 <= i < |r| ==> '\n' !in r[i]
    ensures JoinLines(r) == s
    decreases |s|
  {
    if s == [] then
      [""]
    else
      var rest := SplitLines(s[1..]);
      if s[0] == '\n' then
        assert ([""] + rest)[1..] == rest;
        [""] + rest
      else
        var r := [[s[0]] + rest[0]] + rest[1..];
        assert r[1..] == rest[1..];
        assert JoinLines(r) == s by {
          if |rest| == 1 {
            assert s == [s[0]] + s[1..];
          } else {
            calc {
              JoinLines(r);
              ([s[0]] + rest[0]) + "\n" + JoinLines(rest[1..]);
              [s[0]] + (rest[0] + "\n" + JoinLines(rest[1..]));
              [s[0]] + JoinLines(rest);
              s;
            }
          }
        }
        r
  }

  lemma SplitSingle(a: string)
    requires '\n' !in a
    ensures SplitLines(a) == [a]
    decreases |a|
  {
    if a != [] {
      assert '\n' !in a[1..];
      SplitSingle(a[1..]);
      assert [a[0]] + a[1..] == a;
    }
  }

  lemma SplitAfterFirst(a: string, t: string)
    requires '\n' !in a
    ensures SplitLines(a + "\n" + t) == [a] + SplitLines(t)
    decreases |a|
  {
    var s := a + "\n" + t;
    if a == [] {
      assert s[1..] == t;
    } else {
      assert s[0] == a[0];
      assert s[1..] == a[1..] + "\n" + t;
      assert '\n' !in a[1..];
      SplitAfterFirst(a[1..], t);
      assert [a[0]] + a[1..] == a;
    }
  }

  /** Splitting a join of newline-free lines gives the lines back, so the line count is kept. */
  lemma {:induction false} SplitJoin(ls: seq<string>)
    requires |ls| >= 1
    requires forall i :: 0 <= i < |ls| ==> '\n' !in ls[i]
    ensures SplitLines(JoinLines(ls)) == ls
    decreases |ls|
  {
    if |ls| == 1 {
      SplitSingle(ls[0]);
    } else {
      SplitJoin(ls[1..]);
      SplitAfterFirst(ls[0], JoinLines(ls[1..]));
      assert [ls[0]] + ls[1..] == ls;
    }
  }
}
