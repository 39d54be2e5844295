/**
 * The contents of one pigeonhole: the `item_code` column holds the codes of
 * the units stored in the cell as one comma-separated text, one entry per
 * unit, so the cell is a multiset of codes kept in a list. This module is
 * the counting done by `/get_storage` and the removal done by
 * `removeItemCodes` in server/API/retrieve.js.
 */
module Pigeonhole {
  import opened Strings

  /** The codes a cell holds: `item_code.split(",")`. */
  function Codes(contents: string): seq<string>
  {
    Split(contents, ',')
  }

  /** Number of entries of `s` equal to `c`. */
  function Count(s: seq<string>, c: string): nat
  {
    if s == [] then 0 else (if s[0] == c then 1 else 0) + Count(s[1..], c)
  }

  lemma {:induction false} CountAppend(a: seq<string>, b: seq<string>, c: string)
    ensures Count(a + b, c) == Count(a, c) + Count(b, c)
  {
    if a == [] {
      assert a + b == b;
    } else {
      assert (a + b)[0] == a[0] && (a + b)[1..] == a[1..] + b;
      CountAppend(a[1..], b, c);
    }
  }

  lemma {:induction false} CountPositive(s: seq<string>, c: string)
    ensures Count(s, c) > 0 <==> c in s
  {
    if s != [] {
      CountPositive(s[1..], c);
      assert s == [s[0]] + s[1..];
    }
  }

  /** The `reduce` that tallies a cell's codes into a plain object: each code
      met adds one to its entry, starting from `undefined` treated as 0. */
  function Tally(s: seq<string>): map<string, nat>
  {
    if s == [] then map[]
    else
      var t := Tally(s[..|s| - 1]);
      var c := s[|s| - 1];
      t[c := (if c in t then t[c] else 0) + 1]
  }

  /** The tally has an entry exactly for the codes present, and that entry is
      the number of occurrences. */
  lemma {:induction false} TallyCounts(s: seq<string>, c: string)
    ensures c in Tally(s) <==> Count(s, c) > 0
    ensures c in Tally(s) ==> Tally(s)[c] == Count(s, c)
  {
    if s != [] {
      var p := s[..|s| - 1];
      TallyCounts(p, c);
      assert s == p + [s[|s| - 1]];
      CountAppend(p, [s[|s| - 1]], c);
    }
  }

  /** How many entries `removeItemCodes` takes out: `quantity` of them, but
      no more than there are and none when `quantity` is not positive. */
  function Removed(s: seq<string>, c: string, n: int): nat
  {
    if n <= 0 then 0 else if n < Count(s, c) then n else Count(s, c)
  }

  /** The filter of `removeItemCodes`: walking left to right, an entry equal
      to `c` is dropped while fewer than `n` have been dropped. */
  function RemoveFirst(s: seq<string>, c: string, n: int): seq<string>
  {
    if s == [] then []
    else if s[0] == c && n > 0 then RemoveFirst(s[1..], c, n - 1)
    else [s[0]] + RemoveFirst(s[1..], c, n)
  }

  /** Every entry equal to `c` dropped. */
  function RemoveAll(s: seq<string>, c: string): seq<string>
  {
    if s == [] then []
    else if s[0] == c then RemoveAll(s[1..], c)
    else [s[0]] + RemoveAll(s[1..], c)
  }

  /** `a` is `b` with some entries left out, the rest in their order. */
  predicate IsSubsequence(a: seq<string>, b: seq<string>)
    decreases |b|
  {
    if a == [] then true
    else if b == [] then false
    else if a[0] == b[0] then IsSubsequence(a[1..], b[1..])
    else IsSubsequence(a, b[1..])
  }

  /** Exactly `Removed` entries equal to `c` go. */
  lemma {:induction false} RemoveFirstCount(s: seq<string>, c: string, n: int)
    ensures Count(RemoveFirst(s, c, n), c) == Count(s, c) - Removed(s, c, n)
  {
    if s != [] {
      if s[0] == c && n > 0 {
        RemoveFirstCount(s[1..], c, n - 1);
      } else {
        RemoveFirstCount(s[1..], c, n);
        assert ([s[0]] + RemoveFirst(s[1..], c, n))[1..] == RemoveFirst(s[1..], c, n);
      }
    }
  }

  /** No entry other than `c` goes. */
  lemma {:induction false} RemoveFirstKeepsOthers(s: seq<string>, c: string, n: int, d: string)
    requires d != c
    ensures Count(RemoveFirst(s, c, n), d) == Count(s, d)
  {
    if s != [] {
      if s[0] == c && n > 0 {
        RemoveFirstKeepsOthers(s[1..], c, n - 1, d);
      } else {
        RemoveFirstKeepsOthers(s[1..], c, n, d);
        assert ([s[0]] + RemoveFirst(s[1..], c, n))[1..] == RemoveFirst(s[1..], c, n);
      }
    }
  }

  /** The list shrinks by exactly the entries removed. */
  lemma {:induction false} RemoveFirstLength(s: seq<string>, c: string, n: int)
    ensures |RemoveFirst(s, c, n)| == |s| - Removed(s, c, n)
  {
    if s != [] {
      if s[0] == c && n > 0 {
        RemoveFirstLength(s[1..], c, n - 1);
      } else {
        RemoveFirstLength(s[1..], c, n);
      }
    }
  }

  /** A quantity that is not positive, or a code the cell does not hold,
      leaves the list as it is. */
  lemma {:induction false} RemoveFirstNoop(s: seq<string>, c: string, n: int)
    requires n <= 0 || c !in s
    ensures RemoveFirst(s, c, n) == s
  {
    if s != [] {
      assert c !in s ==> c !in s[1..];
      RemoveFirstNoop(s[1..], c, n);
      assert s == [s[0]] + s[1..];
    }
  }

  /** The removal over two halves: the first half is served first and the
      second half removes what is still owed. */
  lemma {:induction false} RemoveFirstAppend(a: seq<string>, b: seq<string>, c: string, n: int)
    ensures RemoveFirst(a + b, c, n) == RemoveFirst(a, c, n) + RemoveFirst(b, c, n - Removed(a, c, n))
  {
    if a == [] {
      assert a + b == b;
    } else {
      assert (a + b)[0] == a[0] && (a + b)[1..] == a[1..] + b;
      if a[0] == c && n > 0 {
        RemoveFirstAppend(a[1..], b, c, n - 1);
      } else {
        RemoveFirstAppend(a[1..], b, c, n);
      }
    }
  }

  lemma {:induction false} RemoveAllIsRemoveFirst(s: seq<string>, c: string, n: int)
    requires n >= Count(s, c)
    ensures RemoveFirst(s, c, n) == RemoveAll(s, c)
  {
    if s != [] {
      if s[0] == c && n > 0 {
        RemoveAllIsRemoveFirst(s[1..], c, n - 1);
      } else {
        RemoveAllIsRemoveFirst(s[1..], c, n);
      }
    }
  }

  /** The entries removed are the leftmost ones: cut the list at any point
      `p` before which exactly `Removed` occurrences lie; the result is the
      part before the cut with every `c` deleted, then the part after the cut
      untouched. */
  lemma {:induction false} RemoveFirstLeftmost(s: seq<string>, c: string, n: int, p: nat)
    requires p <= |s|
    requires Count(s[..p], c) == Removed(s, c, n)
    ensures RemoveFirst(s, c, n) == RemoveAll(s[..p], c) + s[p..]
  {
    assert s == s[..p] + s[p..];
    RemoveFirstAppend(s[..p], s[p..], c, n);
    CountAppend(s[..p], s[p..], c);
    if n > 0 {
      RemoveAllIsRemoveFirst(s[..p], c, n);
      assert Removed(s[..p], c, n) == Count(s[..p], c);
      if n - Count(s[..p], c) > 0 {
        assert Count(s[p..], c) == 0;
        CountPositive(s[p..], c);
      }
      RemoveFirstNoop(s[p..], c, n - Removed(s[..p], c, n));
    } else {
      RemoveFirstNoop(s[..p], c, n);
      RemoveFirstNoop(s[p..], c, n);
      RemoveAllIsRemoveFirst(s[..p], c, Count(s[..p], c));
      RemoveFirstNoop(s[..p], c, 0);
      CountPositive(s[..p], c);
      RemoveAllNoop(s[..p], c);
    }
  }

  lemma {:induction false} RemoveAllNoop(s: seq<string>, c: string)
    requires c !in s
    ensures RemoveAll(s, c) == s
  {
    if s != [] {
      assert c !in s[1..];
      RemoveAllNoop(s[1..], c);
      assert s == [s[0]] + s[1..];
    }
  }

  /** The survivors keep their original relative order. */
  lemma {:induction false} RemoveFirstInOrder(s: seq<string>, c: string, n: int)
    ensures IsSubsequence(RemoveFirst(s, c, n), s)
  {
    if s != [] {
      if s[0] == c && n > 0 {
        RemoveFirstInOrder(s[1..], c, n - 1);
        SubsequenceOfTail(RemoveFirst(s[1..], c, n - 1), s);
      } else {
        RemoveFirstInOrder(s[1..], c, n);
        var r := [s[0]] + RemoveFirst(s[1..], c, n);
        assert r[0] == s[0] && r[1..] == RemoveFirst(s[1..], c, n);
      }
    }
  }

  lemma {:induction false} SubsequenceOfTail(a: seq<string>, b: seq<string>)
    requires b != [] && IsSubsequence(a, b[1..])
    ensures IsSubsequence(a, b)
    decreases |b|, |a|
  {
    if a != [] && a[0] == b[0] {
      SubsequenceDropHead(a, b[1..]);
    }
  }

  lemma {:induction false} SubsequenceDropHead(a: seq<string>, b: seq<string>)
    requires a != [] && IsSubsequence(a, b)
    ensures IsSubsequence(a[1..], b)
    decreases |b|, |a|
  {
    if a[0] == b[0] {
      if a[1..] != [] {
        SubsequenceOfTail(a[1..], b);
      }
    } else {
      SubsequenceDropHead(a, b[1..]);
      SubsequenceOfTail(a[1..], b);
    }
  }

  /** `removeItemCodes(itemCodes, itemCode, quantity)`: split the cell's text,
      filter with a running count of the entries dropped, join again. */
  method RemoveItemCodes(itemCodes: string, itemCode: string, quantity: int) returns (r: string)
    ensures r == Join(RemoveFirst(Codes(itemCodes), itemCode, quantity), ',')
  {
    var codes := Split(itemCodes, ',');
    var count := 0;
    var updated: seq<string> := [];
    for i := 0 to |codes|
      invariant count == Removed(codes[..i], itemCode, quantity)
      invariant updated == RemoveFirst(codes[..i], itemCode, quantity)
    {
      assert codes[..i + 1] == codes[..i] + [codes[i]];
      RemoveFirstAppend(codes[..i], [codes[i]], itemCode, quantity);
      CountAppend(codes[..i], [codes[i]], itemCode);
      if codes[i] == itemCode && count < quantity {
        count := count + 1;
      } else {
        updated := updated + [codes[i]];
      }
    }
    assert codes[..|codes|] == codes;
    r := Join(updated, ',');
  }

  /** Read back as a cell, the rewritten text holds the remaining codes; an
      emptied cell reads as one empty code. */
  lemma CellAfterRemoval(itemCodes: string, itemCode: string, quantity: int)
    ensures Codes(Join(RemoveFirst(Codes(itemCodes), itemCode, quantity), ','))
         == (var rest := RemoveFirst(Codes(itemCodes), itemCode, quantity); if rest == [] then [""] else rest)
  {
    var rest := RemoveFirst(Codes(itemCodes), itemCode, quantity);
    if rest != [] {
      forall i | 0 <= i < |rest| ensures ',' !in rest[i] {
        RemoveFirstInOrder(Codes(itemCodes), itemCode, quantity);
        SubsequenceMembers(rest, Codes(itemCodes), i);
      }
      SplitJoin(rest, ',');
    }
  }

  lemma {:induction false} SubsequenceMembers(a: seq<string>, b: seq<string>, i: nat)
    requires IsSubsequence(a, b) && i < |a|
    ensures a[i] in b
    decreases |b|
  {
    if a[0] == b[0] {
      if i > 0 {
        SubsequenceMembers(a[1..], b[1..], i - 1);
      }
    } else {
      SubsequenceMembers(a, b[1..], i);
    }
  }
}
