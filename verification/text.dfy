/**
 * String helpers the calculator relies on: Python's `str()` of an integer,
 * `str.lower()`, and `"\n".join(...)`.
 */
module Text {

  predicate IsDigit(c: char) {
    '0' <= c <= '9'
  }

  predicate AllDigits(s: string) {
    forall k :: 0 <= k < |s| ==> IsDigit(s[k])
  }

  /** The character of a decimal digit. */
  function DigitChar(d: nat): (c: char)
    requires d < 10
    ensures IsDigit(c)
  {
    (48 + d) as char
  }

  /** The value of a decimal digit character. */
  function DigitValue(c: char): (d: nat)
    requires IsDigit(c)
    ensures d < 10
    ensures DigitChar(d) == c
  {
    c as int - 48
  }

  /** Decimal rendering of a natural number without leading zeros. */
  function NatToString(n: nat): (s: string)
    ensures |s| >= 1 && AllDigits(s)
    ensures |s| > 1 ==> s[0] != '0'
    decreases n
  {
    if n < 10 then [DigitChar(n)] else NatToString(n / 10) + [DigitChar(n % 10)]
  }

  /** Reads a string of decimal digits back as a number. */
  function ParseDigits(s: string): nat
    requires AllDigits(s)
  {
    if s == [] then 0 else ParseDigits(s[..|s| - 1]) * 10 + DigitValue(s[|s| - 1])
  }

  /** Python's `str(n)` (and `f"{n}"`) for an integer: a minus sign for negatives. */
  function IntToString(n: int): (s: string)
    ensures |s| >= 1
    ensures (s[0] == '-') <==> n < 0
    ensures n >= 0 ==> AllDigits(s)
    ensures n < 0 ==> AllDigits(s[1..])
  {
    if n < 0 then "-" + NatToString(-n) else NatToString(n)
  }

  /** The integer an `IntToString` rendering denotes. */
  function ParseInt(s: string): int
    requires |s| >= 1
    requires if s[0] == '-' then AllDigits(s[1..]) else AllDigits(s)
  {
    if s[0] == '-' then 0 - ParseDigits(s[1..]) else ParseDigits(s)
  }

  lemma {:induction false} NatToStringRoundTrip(n: nat)
    ensures ParseDigits(NatToString(n)) == n
    decreases n
  {
    if n >= 10 {
      var s := NatToString(n);
      NatToStringRoundTrip(n / 10);
      assert s[..|s| - 1] == NatToString(n / 10);
    }
  }

  /** Rendering an integer loses nothing: reading it back gives the same number. */
  lemma {:induction false} IntToStringRoundTrip(n: int)
    ensures ParseInt(IntToString(n)) == n
  {
    var s := IntToString(n);
    if n < 0 {
      var digits := NatToString(-n);
      assert s == ['-'] + digits;
      assert s[1..] == digits;
      NatToStringRoundTrip(-n);
      assert ParseInt(s) == 0 - ParseDigits(digits);
    } else {
      NatToStringRoundTrip(n);
    }
  }

  /** Distinct integers are printed differently. */
  lemma IntToStringInjective(m: int, n: int)
    requires IntToString(m) == IntToString(n)
    ensures m == n
  {
    IntToStringRoundTrip(m);
    IntToStringRoundTrip(n);
  }

  /** Lower-case of one character (ASCII letters only). */
  function LowerChar(c: char): char {
    if 'A' <= c <= 'Z' then (c as int + 32) as char else c
  }

  /** `str.lower()` restricted to ASCII letters. */
  function Lower(s: string): (r: string)
    ensures |r| == |s|
    ensures forall k :: 0 <= k < |r| ==> !('A' <= r[k] <= 'Z')
    ensures forall k :: 0 <= k < |s| && !('A' <= s[k] <= 'Z') ==> r[k] == s[k]
    ensures forall k :: 0 <= k < |s| && 'A' <= s[k] <= 'Z' ==> r[k] == (s[k] as int + 32) as char
  {
    seq(|s|, k requires 0 <= k < |s| => LowerChar(s[k]))
  }

  /** Lower-casing twice is lower-casing once. */
  lemma LowerIdempotent(s: string)
    ensures Lower(Lower(s)) == Lower(s)
  {
  }

  /** `sep.join(parts)`. */
  function Join(parts: seq<string>, sep: string): string {
    if |parts| == 0 then ""
    else if |parts| == 1 then parts[0]
    else parts[0] + sep + Join(parts[1..], sep)
  }

  /** Splits at every occurrence of `sep`; the inverse of joining with `sep`. */
  function Split(s: string, sep: char): (parts: seq<string>)
    ensures |parts| >= 1
  {
    if s == [] then [""]
    else
      var rest := Split(s[1..], sep);
      if s[0] == sep then [""] + rest else [[s[0]] + rest[0]] + rest[1..]
  }

  lemma {:induction false} SplitAfterPlainPart(x: string, rest: string, sep: char)
    requires sep !in x
    ensures Split(x + rest, sep) == [x + Split(rest, sep)[0]] + Split(rest, sep)[1..]
  {
    if x != [] {
      assert (x + rest)[0] == x[0];
      assert (x + rest)[1..] == x[1..] + rest;
      SplitAfterPlainPart(x[1..], rest, sep);
      assert [x[0]] + (x[1..] + Split(rest, sep)[0]) == x + Split(rest, sep)[0];
    } else {
      var parts := Split(rest, sep);
      assert x + rest == rest;
      assert x + parts[0] == parts[0];
      assert [parts[0]] + parts[1..] == parts;
    }
  }

  lemma SplitAtSeparator(rest: string, sep: char)
    ensures Split([sep] + rest, sep) == [""] + Split(rest, sep)
  {
    assert ([sep] + rest)[1..] == rest;
  }

  /** Splitting a join at the separator gives the parts back, when no part holds it. */
  lemma {:induction false} SplitJoin(parts: seq<string>, sep: char)
    requires |parts| >= 1
    requires forall k :: 0 <= k < |parts| ==> sep !in parts[k]
    ensures Split(Join(parts, [sep]), sep) == parts
  {
    if |parts| == 1 {
      assert Join(parts, [sep]) == parts[0] + [];
      SplitAfterPlainPart(parts[0], [], sep);
    } else {
      var tail := Join(parts[1..], [sep]);
      assert Join(parts, [sep]) == parts[0] + ([sep] + tail);
      SplitAfterPlainPart(parts[0], [sep] + tail, sep);
      assert ([sep] + tail)[1..] == tail;
      SplitJoin(parts[1..], sep);
      assert Split([sep] + tail, sep) == [""] + parts[1..];
      assert Split([sep] + tail, sep)[0] == "";
      assert Split([sep] + tail, sep)[1..] == parts[1..];
      assert parts[0] + "" == parts[0];
      assert parts == [parts[0]] + parts[1..];
    }
  }

  /** A separator-free first part, the separator, then the rest. */
  lemma SplitFirstPart(first: string, rest: string, sep: char)
    requires sep !in first
    ensures Split(first + ([sep] + rest), sep) == [first] + Split(rest, sep)
  {
    SplitAfterPlainPart(first, [sep] + rest, sep);
    SplitAtSeparator(rest, sep);
    assert first + "" == first;
  }

  /** Concatenation is associative; stated on plain strings so callers need not compare characters. */
  lemma AppendAssociative(a: string, b: string, c: string)
    ensures a + (b + c) == (a + b) + c
  {
  }

  /** Joining with the separator puts it between the first part and the join of the others. */
  lemma JoinFirstPart(parts: seq<string>, sep: string, tail: string)
    requires |parts| >= 2
    ensures Join(parts, sep) + tail == parts[0] + (sep + (Join(parts[1..], sep) + tail))
  {
  }

  /** `parts`, with the last one running on into the first of `more`, then the rest of `more`. */
  function RunOn(parts: seq<string>, more: seq<string>): seq<string>
    requires |parts| >= 1 && |more| >= 1
  {
    if |parts| == 1 then [parts[0] + more[0]] + more[1..] else [parts[0]] + RunOn(parts[1..], more)
  }

  lemma {:induction false} RunOnSlices(parts: seq<string>, more: seq<string>)
    requires |parts| >= 1 && |more| >= 1
    ensures RunOn(parts, more) == parts[..|parts| - 1] + ([parts[|parts| - 1] + more[0]] + more[1..])
  {
    if |parts| > 1 {
      RunOnSlices(parts[1..], more);
      var n := |parts|;
      var y := [parts[n - 1] + more[0]] + more[1..];
      assert parts[1..][..n - 2] == parts[1..n - 1];
      assert [parts[0]] + (parts[1..n - 1] + y) == parts[..n - 1] + y;
    }
  }

  /**
   * Splitting a join followed by more text: the parts come back, the last one
   * running on into the first piece of the text.
   */
  lemma {:induction false} SplitJoinThen(parts: seq<string>, sep: char, tail: string)
    requires |parts| >= 1
    requires forall k :: 0 <= k < |parts| ==> sep !in parts[k]
    ensures Split(Join(parts, [sep]) + tail, sep) == RunOn(parts, Split(tail, sep))
  {
    if |parts| == 1 {
      SplitAfterPlainPart(parts[0], tail, sep);
    } else {
      var later := parts[1..];
      JoinFirstPart(parts, [sep], tail);
      SplitFirstPart(parts[0], Join(later, [sep]) + tail, sep);
      forall k | 0 <= k < |later| ensures sep !in later[k] {
        assert later[k] == parts[k + 1];
      }
      SplitJoinThen(later, sep, tail);
    }
  }

  /** The position of the first `c` in `s`, or `|s|` when there is none. */
  function FirstIndex(s: string, c: char): (k: nat)
    ensures k <= |s|
  {
    if s == [] then 0 else if s[0] == c then 0 else 1 + FirstIndex(s[1..], c)
  }

  lemma {:induction false} FirstIndexAfter(u: string, x: string, c: char)
    requires c !in u
    ensures FirstIndex(u + [c] + x, c) == |u|
  {
    if u != [] {
      assert (u + [c] + x)[1..] == u[1..] + [c] + x;
      FirstIndexAfter(u[1..], x, c);
    }
  }

  /** Two strings that start with a word free of `sep` followed by `sep` agree on the word and on the rest. */
  lemma SameFirstWord(u: string, x: string, v: string, y: string, sep: char)
    requires sep !in u && sep !in v
    requires u + [sep] + x == v + [sep] + y
    ensures u == v && x == y
  {
    var l := u + [sep] + x;
    var r := v + [sep] + y;
    FirstIndexAfter(u, x, sep);
    FirstIndexAfter(v, y, sep);
    assert u == l[..|u|] == r[..|v|] == v;
    assert x == l[|u| + 1..] == r[|v| + 1..] == y;
  }

  /** Decimal renderings of naturals hold no character other than digits. */
  lemma NatStringHasNo(n: nat, c: char)
    requires !IsDigit(c)
    ensures c !in IntToString(n)
  {
  }

  /** Decimal renderings of integers hold nothing but digits and a leading minus. */
  lemma IntStringHasNo(n: int, c: char)
    requires !IsDigit(c) && c != '-'
    ensures c !in IntToString(n)
  {
    if n < 0 {
      assert IntToString(n) == ['-'] + NatToString(-n);
    }
  }

  /** Equal strings with equal fixed prefix and suffix have equal middles. */
  lemma SameMiddle(a: string, m1: string, m2: string, b: string)
    requires a + m1 + b == a + m2 + b
    ensures m1 == m2
  {
    var l := a + m1 + b;
    var r := a + m2 + b;
    assert |m1| == |m2|;
    assert m1 == l[|a|..|a| + |m1|];
    assert m2 == r[|a|..|a| + |m2|];
  }
}
