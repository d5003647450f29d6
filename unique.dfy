/**
  `np.unique` on an array of strings, followed by dropping the empty string:
  the distinct elements in ascending order, where strings compare by code
  point, character by character, and a proper prefix comes first.
 */
module Unique {

  /** Lexicographic order on strings by code point; a proper prefix is smaller. */
  predicate Less(a: string, b: string) {
    |b| > 0 && (|a| == 0 || a[0] < b[0] || (a[0] == b[0] && Less(a[1..], b[1..])))
  }

  lemma {:induction false} LessIrreflexive(a: string)
    ensures !Less(a, a)
  {
    if |a| > 0 {
      LessIrreflexive(a[1..]);
    }
  }

  lemma {:induction false} LessTransitive(a: string, b: string, c: string)
    requires Less(a, b) && Less(b, c)
    ensures Less(a, c)
  {
    if |a| > 0 && a[0] == b[0] && b[0] == c[0] {
      LessTransitive(a[1..], b[1..], c[1..]);
    }
  }

  lemma {:induction false} LessTotal(a: string, b: string)
    requires a != b
    ensures Less(a, b) || Less(b, a)
  {
    if |a| > 0 && |b| > 0 && a[0] == b[0] {
      assert a == [a[0]] + a[1..] && b == [b[0]] + b[1..];
      LessTotal(a[1..], b[1..]);
    }
  }

  /** Every element is smaller than every later one: sorted and without duplicates. */
  predicate StrictlySorted(s: seq<string>) {
    forall i, j :: 0 <= i < j < |s| ==> Less(s[i], s[j])
  }

  /** A strictly sorted sequence repeats nothing: its length is its number of distinct elements. */
  lemma {:induction false} StrictlySortedCardinality(s: seq<string>)
    requires StrictlySorted(s)
    ensures |set x | x in s| == |s|
  {
    if s != [] {
      var rest := s[1..];
      assert StrictlySorted(rest) by {
        forall i, j | 0 <= i < j < |rest| ensures Less(rest[i], rest[j]) {
          assert rest[i] == s[i + 1] && rest[j] == s[j + 1];
        }
      }
      StrictlySortedCardinality(rest);
      assert (set x | x in s) == (set x | x in rest) + {s[0]};
      if s[0] in rest {
        var j :| 0 <= j < |rest| && rest[j] == s[0];
        assert Less(s[0], s[j + 1]);
        LessIrreflexive(s[0]);
      }
    }
  }

  /** Adds `x` to a strictly sorted sequence at its place, unless it is already there. */
  function Insert(x: string, s: seq<string>): (r: seq<string>)
    requires StrictlySorted(s)
    ensures StrictlySorted(r)
    ensures forall y :: y in r <==> y == x || y in s
  {
    if s == [] then [x]
    else if x == s[0] then s
    else if Less(x, s[0]) then
      assert forall j :: 0 < j < |s| ==> Less(s[0], s[j]);
      forall j | 0 < j < |s| ensures Less(x, s[j]) {
        LessTransitive(x, s[0], s[j]);
      }
      [x] + s
    else
      LessTotal(x, s[0]);
      var tail := Insert(x, s[1..]);
      assert forall y :: y in tail ==> Less(s[0], y);
      [s[0]] + tail
  }

  /** `np.unique` on strings: the distinct elements of `xs` in ascending order. */
  function SortedUnique(xs: seq<string>): (r: seq<string>)
    ensures StrictlySorted(r)
    ensures forall y :: y in r <==> y in xs
  {
    if xs == [] then [] else Insert(xs[0], SortedUnique(xs[1..]))
  }

  /** The elements other than `''`, in the same order. */
  function WithoutEmpty(s: seq<string>): (r: seq<string>)
    requires StrictlySorted(s)
    ensures StrictlySorted(r)
    ensures forall y :: y in r <==> y in s && y != []
  {
    if s == [] then []
    else if s[0] == [] then WithoutEmpty(s[1..])
    else
      var tail := WithoutEmpty(s[1..]);
      assert forall y :: y in tail ==> Less(s[0], y);
      [s[0]] + tail
  }

  /** The post-processing of the mention extractor: unique, sorted, and without `''`. */
  function UniqueNonEmpty(xs: seq<string>): (r: seq<string>)
    ensures StrictlySorted(r)
    ensures [] !in r
    ensures forall y :: y in r <==> y in xs && y != []
  {
    WithoutEmpty(SortedUnique(xs))
  }

  /**
    A strictly sorted sequence is determined by its elements, so the result of
    `UniqueNonEmpty` is the one ascending listing of the non-empty inputs.
   */
  lemma {:induction false} StrictlySortedDetermined(a: seq<string>, b: seq<string>)
    requires StrictlySorted(a) && StrictlySorted(b)
    requires forall y :: y in a <==> y in b
    ensures a == b
  {
    assert a != [] ==> a[0] in b;
    assert b != [] ==> b[0] in a;
    if a != [] && b != [] {
      assert a[0] in b;
      assert b[0] in a;
      if a[0] != b[0] {
        assert Less(a[0], b[0]) && Less(b[0], a[0]);
        LessTransitive(a[0], b[0], a[0]);
        LessIrreflexive(a[0]);
      } else {
        forall y ensures y in a[1..] <==> y in b[1..] {
          if y in a[1..] {
            var i :| 1 <= i < |a| && a[i] == y;
            LessIrreflexive(a[0]);
            assert y in a && y in b;
            var j :| 0 <= j < |b| && b[j] == y;
            assert j != 0;
            assert b[1..][j - 1] == y;
          }
          if y in b[1..] {
            var j :| 1 <= j < |b| && b[j] == y;
            LessIrreflexive(b[0]);
            assert y in b && y in a;
            var i :| 0 <= i < |a| && a[i] == y;
            assert i != 0;
            assert a[1..][i - 1] == y;
          }
        }
        StrictlySortedDetermined(a[1..], b[1..]);
        assert a == [a[0]] + a[1..] && b == [b[0]] + b[1..];
      }
    }
  }
}
