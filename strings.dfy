/**
 * The text operations the warehouse code relies on from JavaScript:
 * `String.prototype.split` and `Array.prototype.join` with a one-character
 * separator, and the decimal text of integers (`Number.prototype.toString`
 * and the `Number(text)` conversion used by relational comparisons).
 */
module Strings {
  import opened Wrappers

  /** `s.split(sep)`: the pieces between separators, in order. The empty
      string splits into one empty piece, and no piece holds a separator. */
  function Split(s: string, sep: char): (r: seq<string>)
    ensures |r| >= 1
    ensures forall i :: 0 <= i < |r| ==> sep !in r[i]
    decreases |s|
  {
    if s == [] then [[]]
    else
      var rest := Split(s[1..], sep);
      if s[0] == sep then [[]] + rest
      else [[s[0]] + rest[0]] + rest[1..]
  }

  /** `xs.join(sep)`: the pieces with one separator between neighbours. */
  function Join(xs: seq<string>, sep: char): string
  {
    if |xs| == 0 then []
    else if |xs| == 1 then xs[0]
    else xs[0] + [sep] + Join(xs[1..], sep)
  }

  /** Splitting a text that starts with a separator-free prefix `a`: the
      prefix is glued to the first piece of the rest. */
  lemma {:induction false} SplitPrefix(a: string, t: string, sep: char)
    requires sep !in a
    ensures Split(a + t, sep) == [a + Split(t, sep)[0]] + Split(t, sep)[1..]
    decreases |a|
  {
    if a != [] {
      assert (a + t)[0] == a[0];
      assert (a + t)[1..] == a[1..] + t;
      SplitPrefix(a[1..], t, sep);
      assert [a[0]] + (a[1..] + Split(t, sep)[0]) == a + Split(t, sep)[0];
    } else {
      assert a + t == t;
      assert a + Split(t, sep)[0] == Split(t, sep)[0];
      assert Split(t, sep) == [Split(t, sep)[0]] + Split(t, sep)[1..];
    }
  }

  /** Joining the pieces of a split gives the text back. */
  lemma {:induction false} JoinSplit(s: string, sep: char)
    ensures Join(Split(s, sep), sep) == s
    decreases |s|
  {
    if s != [] {
      var rest := Split(s[1..], sep);
      JoinSplit(s[1..], sep);
      if s[0] == sep {
        assert Split(s, sep) == [[]] + rest;
        assert ([[]] + rest)[1..] == rest;
        assert s == [sep] + s[1..];
      } else {
        var r := Split(s, sep);
        assert r == [[s[0]] + rest[0]] + rest[1..];
        assert s == [s[0]] + s[1..];
        if |rest| > 1 {
          assert r[1..] == rest[1..];
          assert Join(rest, sep) == rest[0] + [sep] + Join(rest[1..], sep);
        }
      }
    }
  }

  /** Splitting a join of separator-free pieces gives the pieces back (a
      non-empty list: `[].join` and `[""].join` are both empty). */
  lemma {:induction false} SplitJoin(xs: seq<string>, sep: char)
    requires |xs| >= 1
    requires forall i :: 0 <= i < |xs| ==> sep !in xs[i]
    ensures Split(Join(xs, sep), sep) == xs
    decreases |xs|
  {
    if |xs| == 1 {
      SplitPrefix(xs[0], [], sep);
      assert xs[0] + [] == xs[0];
    } else {
      var t := [sep] + Join(xs[1..], sep);
      assert Join(xs, sep) == xs[0] + t;
      SplitPrefix(xs[0], t, sep);
      SplitJoin(xs[1..], sep);
      assert t[1..] == Join(xs[1..], sep);
      assert Split(t, sep) == [[]] + xs[1..];
      assert xs[0] + [] == xs[0];
    }
  }

  predicate IsDigits(s: string)
  {
    forall i :: 0 <= i < |s| ==> '0' <= s[i] <= '9'
  }

  function DigitChar(d: nat): (c: char)
    requires d < 10
    ensures '0' <= c <= '9' && c as int - '0' as int == d
  {
    ('0' as int + d) as char
  }

  /** The decimal text of a natural number, most significant digit first. */
  function NatToString(n: nat): (r: string)
    ensures |r| >= 1 && IsDigits(r)
  {
    if n < 10 then [DigitChar(n)] else NatToString(n / 10) + [DigitChar(n % 10)]
  }

  /** The value of a string of decimal digits (the empty string is 0). */
  function DigitsValue(s: string): nat
    requires IsDigits(s)
  {
    if s == [] then 0 else DigitsValue(s[..|s| - 1]) * 10 + (s[|s| - 1] as int - '0' as int)
  }

  lemma {:induction false} NatToStringValue(n: nat)
    ensures DigitsValue(NatToString(n)) == n
  {
    if n >= 10 {
      NatToStringValue(n / 10);
      var r := NatToString(n);
      assert r[..|r| - 1] == NatToString(n / 10);
    }
  }

  /** `n.toString()` for an integer number: a minus sign before the digits
      of a negative value. */
  function IntToString(n: int): string
  {
    if n < 0 then "-" + NatToString(-n) else NatToString(n)
  }

  /** `Number(s)` for the texts a quantity cell can hold: the empty text is
      0, a run of digits with an optional leading minus sign is its value, and
      everything else is NaN (`None`). */
  function TextToNumber(s: string): Option<int>
  {
    if s == [] then Some(0)
    else if IsDigits(s) then Some(DigitsValue(s))
    else if s[0] == '-' && |s| > 1 && IsDigits(s[1..]) then Some(0 - DigitsValue(s[1..]) as int)
    else None
  }

  /** A minus sign before a non-empty run of digits reads as the negated value. */
  lemma NegativeText(d: string)
    requires |d| >= 1 && IsDigits(d)
    ensures TextToNumber("-" + d) == Some(0 - DigitsValue(d) as int)
  {
    var r := "-" + d;
    assert r[0] == '-';
    assert r[1..] == d;
    assert !IsDigits(r);
  }

  /** The decimal text of a natural number reads back as that number. */
  lemma NatRoundTrip(m: nat)
    ensures TextToNumber(NatToString(m)) == Some(m)
  {
    NatToStringValue(m);
  }

  /** A minus sign before the decimal text of a positive number reads back
      as its negation. */
  lemma NegatedRoundTrip(m: nat)
    requires m > 0
    ensures TextToNumber("-" + NatToString(m)) == Some(-(m as int))
  {
    NatToStringValue(m);
    NegativeText(NatToString(m));
  }

  /** The conversion back to a number undoes `toString` on every integer. */
  lemma IntToStringRoundTrip(n: int)
    ensures TextToNumber(IntToString(n)) == Some(n)
  {
    if n < 0 {
      NegatedRoundTrip(-n);
    } else {
      NatRoundTrip(n);
    }
  }
}
