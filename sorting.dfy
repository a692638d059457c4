/**
  `sorted(addresses, key=octet tuple)`: Python compares the integer tuples
  lexicographically, which on four-octet addresses is their numeric order.
*/
module Sorting {

  /** Python's `<` on tuples of integers: the first differing position decides, a proper prefix is smaller. */
  predicate LexLess(a: seq<nat>, b: seq<nat>)
  {
    if a == [] then b != []
    else if b == [] then false
    else if a[0] != b[0] then a[0] < b[0]
    else LexLess(a[1..], b[1..])
  }

  /** Non-decreasing under the tuple order. */
  predicate Sorted(s: seq<seq<nat>>)
  {
    forall i, j | 0 <= i < j < |s| :: !LexLess(s[j], s[i])
  }

  /** Strictly increasing under the tuple order (so no element twice). */
  predicate StrictlyAscending(s: seq<seq<nat>>)
  {
    forall i, j | 0 <= i < j < |s| :: LexLess(s[i], s[j])
  }

  /** Puts `x` before the first element not smaller than it. */
  function Insert(x: seq<nat>, s: seq<seq<nat>>): (r: seq<seq<nat>>)
    ensures |r| == |s| + 1
  {
    if s == [] then [x]
    else if LexLess(s[0], x) then [s[0]] + Insert(x, s[1..])
    else [x] + s
  }

  /** Python's `sorted` under the tuple order, as an insertion sort. */
  function Sort(s: seq<seq<nat>>): (r: seq<seq<nat>>)
    ensures |r| == |s|
  {
    if s == [] then [] else Insert(s[0], Sort(s[1..]))
  }

  // ---------------------------------------------------------------- lemmas

  /** No tuple is smaller than itself. */
  lemma {:induction false} LexIrreflexive(a: seq<nat>)
    ensures !LexLess(a, a)
  {
    if a != [] {
      LexIrreflexive(a[1..]);
    }
  }

  /** The tuple order is transitive. */
  lemma {:induction false} LexTransitive(a: seq<nat>, b: seq<nat>, c: seq<nat>)
    requires LexLess(a, b) && LexLess(b, c)
    ensures LexLess(a, c)
  {
    if a != [] && b != [] && c != [] && a[0] == b[0] && b[0] == c[0] {
      LexTransitive(a[1..], b[1..], c[1..]);
    }
  }

  /** Any two different tuples are ordered one way or the other. */
  lemma {:induction false} LexTotal(a: seq<nat>, b: seq<nat>)
    requires a != b
    ensures LexLess(a, b) || LexLess(b, a)
  {
    if a != [] && b != [] && a[0] == b[0] {
      assert a == [a[0]] + a[1..] && b == [b[0]] + b[1..];
      LexTotal(a[1..], b[1..]);
    }
  }

  /** Of two tuples, at most one is smaller than the other. */
  lemma {:induction false} LexAsymmetric(a: seq<nat>, b: seq<nat>)
    requires LexLess(a, b)
    ensures !LexLess(b, a)
  {
    if LexLess(b, a) {
      LexTransitive(a, b, a);
      LexIrreflexive(a);
    }
  }

  /** Prepending an element no greater than any of a sorted list keeps it sorted. */
  lemma ConsSorted(y: seq<nat>, r: seq<seq<nat>>)
    requires Sorted(r)
    requires forall j | 0 <= j < |r| :: !LexLess(r[j], y)
    ensures Sorted([y] + r)
  {
    forall i, j | 0 <= i < j < |[y] + r|
      ensures !LexLess(([y] + r)[j], ([y] + r)[i])
    {
      assert ([y] + r)[j] == r[j - 1];
      if i > 0 {
        assert ([y] + r)[i] == r[i - 1];
      }
    }
  }

  /** A common prefix does not change the order. */
  lemma {:induction false} LexCommonPrefix(p: seq<nat>, a: seq<nat>, b: seq<nat>)
    requires LexLess(a, b)
    ensures LexLess(p + a, p + b)
  {
    if p == [] {
      assert p + a == a && p + b == b;
    } else {
      assert (p + a)[0] == (p + b)[0];
      assert (p + a)[1..] == p[1..] + a && (p + b)[1..] == p[1..] + b;
      LexCommonPrefix(p[1..], a, b);
    }
  }

  /** Inserting adds exactly one `x` to the elements. */
  lemma {:induction false} InsertElements(x: seq<nat>, s: seq<seq<nat>>)
    ensures multiset(Insert(x, s)) == multiset{x} + multiset(s)
  {
    if s != [] {
      assert s == [s[0]] + s[1..];
      if LexLess(s[0], x) {
        InsertElements(x, s[1..]);
      }
    }
  }

  /** Inserting into a sorted list keeps it sorted. */
  lemma {:induction false} InsertSorted(x: seq<nat>, s: seq<seq<nat>>)
    requires Sorted(s)
    ensures Sorted(Insert(x, s))
  {
    if s == [] {
    } else if LexLess(s[0], x) {
      var r := Insert(x, s[1..]);
      InsertSorted(x, s[1..]);
      InsertElements(x, s[1..]);
      forall j | 0 <= j < |r|
        ensures !LexLess(r[j], s[0])
      {
        var y := r[j];
        assert y in multiset(r);
        if y == x {
          LexAsymmetric(s[0], x);
        } else {
          assert y in multiset(s[1..]);
          var k :| 0 <= k < |s[1..]| && s[1..][k] == y;
          assert s[k + 1] == y;
        }
      }
      ConsSorted(s[0], r);
    } else {
      forall j | 0 <= j < |s|
        ensures !LexLess(s[j], x)
      {
        if j > 0 && LexLess(s[j], x) {
          if s[j] != s[0] {
            LexTotal(s[j], s[0]);
            LexTransitive(s[0], s[j], x);
          }
        }
      }
      ConsSorted(x, s);
    }
  }

  /** `Sort` returns a sorted permutation of its input. */
  lemma {:induction false} SortIsSortedPermutation(s: seq<seq<nat>>)
    ensures Sorted(Sort(s))
    ensures multiset(Sort(s)) == multiset(s)
  {
    if s != [] {
      SortIsSortedPermutation(s[1..]);
      InsertSorted(s[0], Sort(s[1..]));
      InsertElements(s[0], Sort(s[1..]));
      assert s == [s[0]] + s[1..];
    }
  }

  /** Sorting a list that is already strictly ascending changes nothing. */
  lemma {:induction false} SortOfAscending(s: seq<seq<nat>>)
    requires StrictlyAscending(s)
    ensures Sort(s) == s
  {
    if s != [] {
      assert StrictlyAscending(s[1..]) by {
        forall i, j | 0 <= i < j < |s[1..]|
          ensures LexLess(s[1..][i], s[1..][j])
        {
          assert s[1..][i] == s[i + 1] && s[1..][j] == s[j + 1];
        }
      }
      SortOfAscending(s[1..]);
      if |s| > 1 {
        LexAsymmetric(s[0], s[1]);
      }
      assert s == [s[0]] + s[1..];
    }
  }

  /** A strictly ascending list holds no element twice. */
  lemma AscendingHasNoDuplicates(s: seq<seq<nat>>, i: nat, j: nat)
    requires StrictlyAscending(s)
    requires i < j < |s|
    ensures s[i] != s[j]
  {
    LexIrreflexive(s[i]);
  }
}
