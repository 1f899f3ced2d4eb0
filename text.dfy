/**
 * String helpers shared by the modules: ASCII whitespace, trimming, lower-casing,
 * splitting and joining on a separator character, and decimal rendering of numbers.
 */
module Text {
  import opened Wrappers

  /** ASCII whitespace: space, tab, line feed, vertical tab, form feed, carriage return. */
  predicate IsSpace(c: char) {
    c == ' ' || c == '\t' || c == '\n' || c == '\U{000B}' || c == '\U{000C}' || c == '\r'
  }

  predicate AllSpace(s: string) {
    forall k :: 0 <= k < |s| ==> IsSpace(s[k])
  }

  /** Length of the leading run of whitespace of `s`. */
  function SpaceRun(s: string): (n: nat)
    ensures n <= |s|
    ensures AllSpace(s[..n])
    ensures n < |s| ==> !IsSpace(s[n])
  {
    if |s| > 0 && IsSpace(s[0]) then 1 + SpaceRun(s[1..]) else 0
  }

  /** Length of the trailing run of whitespace of `s`. */
  function TrailingSpaceRun(s: string): (n: nat)
    ensures n <= |s|
    ensures AllSpace(s[|s| - n..])
    ensures n < |s| ==> !IsSpace(s[|s| - n - 1])
  {
    if |s| > 0 && IsSpace(s[|s| - 1]) then 1 + TrailingSpaceRun(s[..|s| - 1]) else 0
  }

  /** A whitespace-only prefix followed by a non-space character is exactly the run. */
  lemma {:induction false} SpaceRunOfPadded(p: string, u: string)
    requires AllSpace(p)
    requires |u| > 0 && !IsSpace(u[0])
    ensures SpaceRun(p + u) == |p|
  {
    if |p| > 0 {
      assert (p + u)[1..] == p[1..] + u;
      SpaceRunOfPadded(p[1..], u);
    }
  }

  lemma {:induction false} TrailingSpaceRunOfPadded(u: string, q: string)
    requires AllSpace(q)
    requires |u| > 0 && !IsSpace(u[|u| - 1])
    ensures TrailingSpaceRun(u + q) == |q|
  {
    if |q| > 0 {
      assert (u + q)[..|u + q| - 1] == u + q[..|q| - 1];
      TrailingSpaceRunOfPadded(u, q[..|q| - 1]);
    }
  }

  /** JavaScript's `String.prototype.trimStart`, restricted to ASCII whitespace. */
  function TrimStart(s: string): string {
    s[SpaceRun(s)..]
  }

  /** JavaScript's `String.prototype.trimEnd`, restricted to ASCII whitespace. */
  function TrimEnd(s: string): string {
    s[..|s| - TrailingSpaceRun(s)]
  }

  /**
   * JavaScript's `String.prototype.trim`, restricted to ASCII whitespace: the result is
   * the middle of `s` once the whitespace on both ends is cut away.
   */
  function Trim(s: string): (r: string)
    ensures |r| <= |s|
    ensures |r| > 0 ==> !IsSpace(r[0]) && !IsSpace(r[|r| - 1])
    ensures SpaceRun(s) + |r| <= |s| && r == s[SpaceRun(s)..SpaceRun(s) + |r|]
    ensures AllSpace(s[..SpaceRun(s)]) && AllSpace(s[SpaceRun(s) + |r|..])
  {
    TrimEnds(s);
    TrimMiddle(s);
    TrimEnd(TrimStart(s))
  }

  /** The trimmed text starts and ends with a non-space character. */
  lemma {:induction false} TrimEnds(s: string)
    ensures var r := TrimEnd(TrimStart(s)); |r| > 0 ==> !IsSpace(r[0]) && !IsSpace(r[|r| - 1])
  {
    var t := TrimStart(s);
    var r := TrimEnd(t);
    if |r| > 0 {
      assert r[0] == t[0];
    }
  }

  /** The trimmed text is the slice of `s` between its two whitespace runs. */
  lemma {:induction false} TrimMiddle(s: string)
    ensures var r := TrimEnd(TrimStart(s)); var a := SpaceRun(s);
      a + |r| <= |s| && r == s[a..a + |r|] && AllSpace(s[a + |r|..])
  {
    var a := SpaceRun(s);
    var t := s[a..];
    var m := TrailingSpaceRun(t);
    TakeOfDrop(s, a, |t| - m);
    DropOfDrop(s, a, |t| - m);
  }

  lemma {:induction false} TakeOfDrop(s: string, i: nat, n: nat)
    requires i + n <= |s|
    ensures s[i..][..n] == s[i..i + n]
  {
  }

  lemma {:induction false} DropOfDrop(s: string, i: nat, j: nat)
    requires i + j <= |s|
    ensures s[i..][j..] == s[i + j..]
  {
  }

  /**
   * Trim removes exactly the whitespace padding: a word with non-space ends, padded
   * with whitespace on both sides, trims back to the word.
   */
  lemma {:induction false} TrimPadded(p: string, u: string, q: string)
    requires AllSpace(p) && AllSpace(q)
    requires |u| > 0 && !IsSpace(u[0]) && !IsSpace(u[|u| - 1])
    ensures Trim(p + u + q) == u
  {
    var s := p + u + q;
    assert s == p + (u + q);
    SpaceRunOfPadded(p, u + q);
    var t := s[|p|..];
    assert t == u + q;
    TrailingSpaceRunOfPadded(u, q);
    assert t[..|t| - |q|] == u;
  }

  /** Trimming a trimmed string changes nothing. */
  lemma {:induction false} TrimIdempotent(s: string)
    ensures Trim(Trim(s)) == Trim(s)
  {
    var r := Trim(s);
    if |r| > 0 {
      assert "" + r + "" == r;
      TrimPadded("", r, "");
    }
  }

  /** ASCII lower-casing of one character. */
  function Lower(c: char): (d: char)
    ensures IsSpace(d) <==> IsSpace(c)
    ensures !('A' <= d <= 'Z')
  {
    if 'A' <= c <= 'Z' then (c as int + 32) as char else c
  }

  /** JavaScript's `String.prototype.toLowerCase`, restricted to ASCII letters. */
  function ToLower(s: string): (r: string)
    ensures |r| == |s|
    ensures forall k :: 0 <= k < |s| ==> r[k] == Lower(s[k])
  {
    if |s| == 0 then [] else [Lower(s[0])] + ToLower(s[1..])
  }

  lemma ToLowerIdempotent(s: string)
    ensures ToLower(ToLower(s)) == ToLower(s)
  {
  }

  /** Lower-casing keeps every character's whitespace class, so it commutes with Trim. */
  lemma {:induction false} TrimToLower(s: string)
    ensures Trim(ToLower(s)) == ToLower(Trim(s))
  {
    TrimStartLower(s);
    TrimEndLower(TrimStart(s));
  }

  lemma {:induction false} TrimStartLower(s: string)
    ensures TrimStart(ToLower(s)) == ToLower(TrimStart(s))
  {
    SpaceRunLower(s);
    ToLowerDrop(s, SpaceRun(s));
  }

  lemma {:induction false} TrimEndLower(s: string)
    ensures TrimEnd(ToLower(s)) == ToLower(TrimEnd(s))
  {
    TrailingSpaceRunLower(s);
    ToLowerTake(s, |s| - TrailingSpaceRun(s));
  }

  lemma {:induction false} SpaceRunLower(s: string)
    ensures SpaceRun(ToLower(s)) == SpaceRun(s)
    decreases |s|
  {
    if |s| > 0 {
      ToLowerDrop(s, 1);
      SpaceRunLower(s[1..]);
    }
  }

  lemma {:induction false} TrailingSpaceRunLower(s: string)
    ensures TrailingSpaceRun(ToLower(s)) == TrailingSpaceRun(s)
    decreases |s|
  {
    if |s| > 0 {
      ToLowerTake(s, |s| - 1);
      TrailingSpaceRunLower(s[..|s| - 1]);
    }
  }

  lemma {:induction false} ToLowerTake(s: string, j: nat)
    requires j <= |s|
    ensures ToLower(s)[..j] == ToLower(s[..j])
  {
    forall k | 0 <= k < j ensures ToLower(s)[..j][k] == ToLower(s[..j])[k] {
      assert ToLower(s)[..j][k] == Lower(s[k]);
    }
  }

  lemma {:induction false} ToLowerDrop(s: string, i: nat)
    requires i <= |s|
    ensures ToLower(s)[i..] == ToLower(s[i..])
  {
    forall k | 0 <= k < |s| - i ensures ToLower(s)[i..][k] == ToLower(s[i..])[k] {
      assert ToLower(s)[i..][k] == Lower(s[i + k]);
    }
  }

  // ---------------------------------------------------------------------------
  // Splitting and joining on one separator character

  /** Index of the first `sep` in `s`, or |s| when there is none. */
  function IndexOf(s: string, sep: char): (k: nat)
    ensures k <= |s|
    ensures sep !in s[..k]
    ensures k < |s| ==> s[k] == sep
  {
    if |s| == 0 then 0 else if s[0] == sep then 0 else 1 + IndexOf(s[1..], sep)
  }

  /** Python's `str.split(sep)` and JavaScript's `String.prototype.split(sep)`. */
  function Split(s: string, sep: char): (parts: seq<string>)
    ensures |parts| >= 1
    ensures forall k :: 0 <= k < |parts| ==> sep !in parts[k]
    decreases |s|
  {
    var k := IndexOf(s, sep);
    if k == |s| then [s] else [s[..k]] + Split(s[k + 1..], sep)
  }

  /** Python's `sep.join(parts)` and JavaScript's `parts.join(sep)`. */
  function Join(parts: seq<string>, sep: char): (r: string)
    ensures |parts| == 0 ==> r == ""
    ensures |parts| >= 1 ==> |r| == TotalLength(parts) + |parts| - 1
  {
    if |parts| == 0 then ""
    else if |parts| == 1 then parts[0]
    else parts[0] + [sep] + Join(parts[1..], sep)
  }

  /** The summed lengths of the parts. */
  function TotalLength(parts: seq<string>): nat {
    if |parts| == 0 then 0 else |parts[0]| + TotalLength(parts[1..])
  }

  /** Joining the pieces of a split gives back the text. */
  lemma {:induction false} JoinSplit(s: string, sep: char)
    ensures Join(Split(s, sep), sep) == s
    decreases |s|
  {
    var k := IndexOf(s, sep);
    if k < |s| {
      var rest := Split(s[k + 1..], sep);
      assert Split(s, sep) == [s[..k]] + rest;
      JoinCons(s[..k], rest, sep);
      JoinSplit(s[k + 1..], sep);
      assert s == s[..k] + [sep] + s[k + 1..];
    }
  }

  lemma {:induction false} JoinCons(head: string, rest: seq<string>, sep: char)
    requires |rest| >= 1
    ensures Join([head] + rest, sep) == head + [sep] + Join(rest, sep)
  {
    assert ([head] + rest)[1..] == rest;
  }

  /** Splitting a join of separator-free pieces gives back the pieces. */
  lemma {:induction false} SplitJoin(parts: seq<string>, sep: char)
    requires |parts| >= 1
    requires forall k :: 0 <= k < |parts| ==> sep !in parts[k]
    ensures Split(Join(parts, sep), sep) == parts
  {
    if |parts| > 1 {
      var rest := Join(parts[1..], sep);
      SplitCons(parts[0], rest, sep);
      SplitJoin(parts[1..], sep);
    } else {
      IndexOfAbsent(parts[0], sep);
    }
  }

  lemma IndexOfAbsent(s: string, sep: char)
    requires sep !in s
    ensures IndexOf(s, sep) == |s|
  {
  }

  /** A separator-free piece followed by the separator splits off as the first piece. */
  lemma {:induction false} SplitCons(head: string, tail: string, sep: char)
    requires sep !in head
    ensures Split(head + [sep] + tail, sep) == [head] + Split(tail, sep)
  {
    var s := head + [sep] + tail;
    IndexOfCons(head, tail, sep);
    assert s[..|head|] == head;
    assert s[|head| + 1..] == tail;
  }

  lemma {:induction false} IndexOfCons(head: string, tail: string, sep: char)
    requires sep !in head
    ensures IndexOf(head + [sep] + tail, sep) == |head|
  {
    if |head| > 0 {
      assert (head + [sep] + tail)[1..] == head[1..] + [sep] + tail;
      IndexOfCons(head[1..], tail, sep);
    }
  }

  /** A join ends with the separator and its last part. */
  lemma {:induction false} JoinEndsWith(parts: seq<string>, last: string, sep: char)
    requires |parts| >= 1
    ensures var j := Join(parts + [last], sep); |j| > |last| && j[|j| - |last| - 1..] == [sep] + last
  {
    JoinAppend(parts, [last], sep);
    var j := Join(parts + [last], sep);
    assert j == Join(parts, sep) + ([sep] + last);
  }

  lemma {:induction false} JoinAppend(a: seq<string>, b: seq<string>, sep: char)
    requires |a| >= 1 && |b| >= 1
    ensures Join(a + b, sep) == Join(a, sep) + [sep] + Join(b, sep)
  {
    if |a| > 1 {
      assert (a + b)[1..] == a[1..] + b;
      JoinAppend(a[1..], b, sep);
    } else {
      assert (a + b)[1..] == b;
    }
  }

  // ---------------------------------------------------------------------------
  // Decimal numbers

  predicate IsDigit(c: char) { '0' <= c <= '9' }

  function DigitChar(d: nat): (c: char)
    requires d < 10
    ensures IsDigit(c)
  {
    ('0' as int + d) as char
  }

  function DigitOf(c: char): (d: nat)
    requires IsDigit(c)
    ensures d < 10
  {
    c as int - '0' as int
  }

  /** The value of a string of decimal digits. */
  function DigitsValue(s: string): nat
    requires forall k :: 0 <= k < |s| ==> IsDigit(s[k])
  {
    if |s| == 0 then 0 else 10 * DigitsValue(s[..|s| - 1]) + DigitOf(s[|s| - 1])
  }

  /**
   * The exact decimal digits of a natural number. JavaScript's `String(n)` writes the same
   * digits for integers below 2^53; above that its number is rounded, and from 10^21 on it
   * switches to exponent form.
   */
  function NatToString(n: nat): (s: string)
    ensures |s| >= 1
    ensures forall k :: 0 <= k < |s| ==> IsDigit(s[k])
    ensures |s| > 1 ==> s[0] != '0'
  {
    if n < 10 then [DigitChar(n)] else NatToString(n / 10) + [DigitChar(n % 10)]
  }

  /**
   * An integer in decimal, with a minus sign when negative: a template literal's rendering
   * of integers below 2^53 in magnitude.
   */
  function IntToString(i: int): (s: string)
    ensures |s| >= 1
    ensures s[0] == '-' <==> i < 0
    ensures var d := if i < 0 then s[1..] else s;
      |d| >= 1 && (forall k :: 0 <= k < |d| ==> IsDigit(d[k])) && (|d| > 1 ==> d[0] != '0')
      && DigitsValue(d) == if i < 0 then -i else i
  {
    if i < 0 then
      NatToStringValue(-i);
      assert ("-" + NatToString(-i))[1..] == NatToString(-i);
      "-" + NatToString(-i)
    else
      NatToStringValue(i);
      NatToString(i)
  }

  /** Reading back the digits of a natural number gives the number. */
  lemma {:induction false} NatToStringValue(n: nat)
    ensures DigitsValue(NatToString(n)) == n
  {
    var s := NatToString(n);
    if n >= 10 {
      NatToStringValue(n / 10);
      assert s[..|s| - 1] == NatToString(n / 10);
    }
  }
}
