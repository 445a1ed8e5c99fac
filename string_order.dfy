/**
 * The order numpy sorts string cells in, and `np.unique`: the sorted
 * sequence of the distinct values of a column.
 */
module StringOrder {

  /** Lexicographic order on strings, characters compared by code point. */
  predicate Less(a: string, b: string)
    decreases |a|
  {
    if a == [] then b != []
    else if b == [] then false
    else if a[0] != b[0] then a[0] < b[0]
    else Less(a[1..], b[1..])
  }

  lemma {:induction false} LessIrreflexive(a: string)
    ensures !Less(a, a)
    decreases |a|
  {
    if a != [] {
      LessIrreflexive(a[1..]);
    }
  }

  lemma {:induction false} LessTransitive(a: string, b: string, c: string)
    requires Less(a, b) && Less(b, c)
    ensures Less(a, c)
    decreases |a|
  {
    if a != [] && a[0] == b[0] && b[0] == c[0] {
      LessTransitive(a[1..], b[1..], c[1..]);
    }
  }

  lemma {:induction false} LessTotal(a: string, b: string)
    requires a != b
    ensures Less(a, b) || Less(b, a)
    decreases |a|
  {
    if a != [] && b != [] && a[0] == b[0] {
      assert a == [a[0]] + a[1..] && b == [b[0]] + b[1..];
      LessTotal(a[1..], b[1..]);
    }
  }

  lemma LessAsymmetric(a: string, b: string)
    requires Less(a, b)
    ensures !Less(b, a)
  {
    if Less(b, a) {
      LessTransitive(a, b, a);
      LessIrreflexive(a);
    }
  }

  /** Every element is strictly smaller than every later one. */
  predicate StrictlySorted(s: seq<string>) {
    forall i, j :: 0 <= i < j < |s| ==> Less(s[i], s[j])
  }

  lemma StrictlySortedDistinct(s: seq<string>)
    requires StrictlySorted(s)
    ensures forall i, j :: 0 <= i < |s| && 0 <= j < |s| && i != j ==> s[i] != s[j]
  {
    forall i, j | 0 <= i < |s| && 0 <= j < |s| && i != j
      ensures s[i] != s[j]
    {
      if i < j {
        if s[i] == s[j] { LessIrreflexive(s[i]); }
      } else {
        if s[i] == s[j] { LessIrreflexive(s[j]); }
      }
    }
  }

  /** An element of a strictly sorted sequence does not occur before its position. */
  lemma SortedExcludesPrefix(s: seq<string>, i: nat)
    requires StrictlySorted(s) && i < |s|
    ensures s[i] !in s[..i]
  {
    if s[i] in s[..i] {
      var j :| 0 <= j < i && s[..i][j] == s[i];
      LessIrreflexive(s[i]);
    }
  }

  /** Inserts `x` into a strictly sorted sequence unless it is already there. */
  function Insert(r: seq<string>, x: string): (q: seq<string>)
    requires StrictlySorted(r)
    ensures StrictlySorted(q)
    ensures forall y :: y in q <==> y in r || y == x
    decreases |r|
  {
    if r == [] then [x]
    else if x == r[0] then r
    else if Less(x, r[0]) then
      assert forall k :: 0 <= k < |r| ==> Less(x, r[k]) by {
        forall k | 0 < k < |r| { LessTransitive(x, r[0], r[k]); }
      }
      [x] + r
    else
      LessTotal(x, r[0]);
      var tail := Insert(r[1..], x);
      assert forall y :: y in tail ==> Less(r[0], y) by {
        forall y | y in tail
          ensures Less(r[0], y)
        {
          if y != x {
            var k :| 0 <= k < |r[1..]| && r[1..][k] == y;
            assert r[k + 1] == y;
          }
        }
      }
      assert forall y :: y in r <==> y == r[0] || y in r[1..] by {
        assert r == [r[0]] + r[1..];
      }
      [r[0]] + tail
  }

  /** `np.unique`: the distinct values of `s`, sorted. */
  function Unique(s: seq<string>): (u: seq<string>)
    ensures StrictlySorted(u)
    ensures forall y :: y in u <==> y in s
    decreases |s|
  {
    if s == [] then []
    else
      var init := s[..|s| - 1];
      assert forall y :: y in s <==> y in init || y == s[|s| - 1] by {
        assert s == init + [s[|s| - 1]];
      }
      Insert(Unique(init), s[|s| - 1])
  }

  /** A strictly sorted sequence of values drawn from {a, b} is one of the four sorted choices. */
  lemma {:induction false} SortedWithin(s: seq<string>, a: string, b: string)
    requires StrictlySorted(s) && Less(a, b)
    requires forall y :: y in s ==> y == a || y == b
    ensures s == [] || s == [a] || s == [b] || s == [a, b]
    decreases |s|
  {
    if s != [] {
      var rest := s[1..];
      assert s == [s[0]] + rest;
      assert forall y :: y in rest ==> y in s;
      SortedWithin(rest, a, b);
      assert s[0] in s;
      LessIrreflexive(a);
      LessIrreflexive(b);
      LessAsymmetric(a, b);
      assert rest != [] ==> Less(s[0], rest[0]);
    }
  }

  /** A strictly sorted sequence holding exactly two given values is those two, in order. */
  lemma SortedPair(s: seq<string>, a: string, b: string)
    requires StrictlySorted(s) && Less(a, b)
    requires forall y :: y in s <==> y == a || y == b
    ensures s == [a, b]
  {
    SortedWithin(s, a, b);
    LessIrreflexive(a);
    assert a in s && b in s;
  }
}
