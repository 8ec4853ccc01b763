/** Ordering of sequences: Python's `sorted`, `set` de-duplication and string comparison. */
module Ordering {

  ghost predicate Irreflexive<T(!new)>(lt: (T, T) -> bool) {
    forall a :: !lt(a, a)
  }

  ghost predicate Transitive<T(!new)>(lt: (T, T) -> bool) {
    forall a, b, c :: lt(a, b) && lt(b, c) ==> lt(a, c)
  }

  ghost predicate Trichotomous<T(!new)>(lt: (T, T) -> bool) {
    forall a, b :: a == b || lt(a, b) || lt(b, a)
  }

  /** The "less than" of a sort key: irreflexive and transitive. */
  ghost predicate StrictOrder<T(!new)>(lt: (T, T) -> bool) {
    Irreflexive(lt) && Transitive(lt)
  }

  ghost predicate StrictTotalOrder<T(!new)>(lt: (T, T) -> bool) {
    StrictOrder(lt) && Trichotomous(lt)
  }

  /** Non-decreasing: no later element is below an earlier one. */
  predicate Sorted<T>(lt: (T, T) -> bool, xs: seq<T>) {
    forall i, j :: 0 <= i < j < |xs| ==> !lt(xs[j], xs[i])
  }

  predicate Distinct<T(==)>(xs: seq<T>) {
    forall i, j :: 0 <= i < j < |xs| ==> xs[i] != xs[j]
  }

  /** Python's list comprehension `[x for x in xs if keep(x)]`. */
  function Filter<T(!new)>(keep: T -> bool, xs: seq<T>): (r: seq<T>)
    ensures |r| <= |xs|
    ensures forall y :: y in r <==> y in xs && keep(y)
  {
    if xs == [] then []
    else if keep(xs[0]) then [xs[0]] + Filter(keep, xs[1..])
    else Filter(keep, xs[1..])
  }

  lemma {:induction false} FilterKeepsOrder<T(!new)>(lt: (T, T) -> bool, keep: T -> bool, xs: seq<T>)
    requires Sorted(lt, xs) && Distinct(xs)
    ensures Sorted(lt, Filter(keep, xs)) && Distinct(Filter(keep, xs))
  {
    if xs != [] {
      FilterKeepsOrder(lt, keep, xs[1..]);
      var rest := Filter(keep, xs[1..]);
      forall y | y in rest ensures !lt(y, xs[0]) && y != xs[0] {
        assert y in xs[1..];
        var k :| 0 <= k < |xs[1..]| && xs[1..][k] == y;
        assert xs[k + 1] == y;
      }
    }
  }

  lemma SortedCons<T>(lt: (T, T) -> bool, h: T, rest: seq<T>)
    requires Sorted(lt, rest)
    requires forall y :: y in rest ==> !lt(y, h)
    ensures Sorted(lt, [h] + rest)
  {
    forall i, j | 0 <= i < j < |[h] + rest| ensures !lt(([h] + rest)[j], ([h] + rest)[i]) {
      if i > 0 {
        assert ([h] + rest)[j] == rest[j - 1] && ([h] + rest)[i] == rest[i - 1];
      } else {
        assert ([h] + rest)[j] in rest;
      }
    }
  }

  lemma DistinctCons<T>(h: T, rest: seq<T>)
    ensures Distinct(rest) && h !in rest ==> Distinct([h] + rest)
  {
    if Distinct(rest) && h !in rest {
      DistinctConsHolds(h, rest);
    }
  }

  lemma DistinctConsHolds<T>(h: T, rest: seq<T>)
    requires Distinct(rest) && h !in rest
    ensures Distinct([h] + rest)
  {
    forall i, j | 0 <= i < j < |[h] + rest| ensures ([h] + rest)[i] != ([h] + rest)[j] {
      if i > 0 {
        assert ([h] + rest)[j] == rest[j - 1] && ([h] + rest)[i] == rest[i - 1];
      } else {
        assert ([h] + rest)[j] in rest;
      }
    }
  }

  /** An element strictly below the head of a sorted sequence is below none of it. */
  lemma BelowHead<T(!new)>(lt: (T, T) -> bool, x: T, xs: seq<T>)
    requires StrictOrder(lt) && Sorted(lt, xs) && (xs != [] ==> lt(x, xs[0]))
    ensures forall y :: y in xs ==> !lt(y, x)
  {
    forall y | y in xs ensures !lt(y, x) {
      HeadIsLeast(lt, xs, y);
    }
  }

  /** Places `x` before the first element it is strictly below. */
  function Insert<T(==,!new)>(lt: (T, T) -> bool, x: T, xs: seq<T>): (r: seq<T>)
    requires StrictOrder(lt) && Sorted(lt, xs)
    ensures Sorted(lt, r)
    ensures multiset(r) == multiset(xs) + multiset{x}
    ensures Distinct(xs) && x !in xs ==> Distinct(r)
    decreases |xs|, 1
  {
    if xs == [] || lt(x, xs[0]) then
      BelowHead(lt, x, xs);
      SortedCons(lt, x, xs);
      DistinctCons(x, xs);
      [x] + xs
    else
      InsertBehind(lt, x, xs)
  }

  function InsertBehind<T(==,!new)>(lt: (T, T) -> bool, x: T, xs: seq<T>): (r: seq<T>)
    requires StrictOrder(lt) && Sorted(lt, xs) && xs != [] && !lt(x, xs[0])
    ensures Sorted(lt, r)
    ensures multiset(r) == multiset(xs) + multiset{x}
    ensures Distinct(xs) && x !in xs ==> Distinct(r)
    decreases |xs|, 0
  {
    var h := xs[0];
    var rest := Insert(lt, x, xs[1..]);
    assert xs == [h] + xs[1..];
    assert forall y :: y in rest ==> y == x || y in xs[1..] by {
      forall y | y in rest ensures y == x || y in xs[1..] {
        assert y in multiset(rest);
      }
    }
    forall y | y in rest ensures !lt(y, h) {
      if y != x {
        HeadIsLeast(lt, xs, y);
      }
    }
    SortedCons(lt, h, rest);
    DistinctCons(h, rest);
    [h] + rest
  }

  /** Python's `sorted(xs)` for a key whose "less than" is `lt`. */
  function Sort<T(==,!new)>(lt: (T, T) -> bool, xs: seq<T>): (r: seq<T>)
    requires StrictOrder(lt)
    ensures Sorted(lt, r)
    ensures multiset(r) == multiset(xs)
    ensures Distinct(xs) ==> Distinct(r)
  {
    if xs == [] then []
    else
      assert xs == [xs[0]] + xs[1..];
      var rest := Sort(lt, xs[1..]);
      assert xs[0] in rest <==> xs[0] in multiset(xs[1..]);
      Insert(lt, xs[0], rest)
  }

  /** One copy of each element, in order of first occurrence. Where it stands for
      iterating a Python `set`, whose order is unspecified, it is one order Python may use. */
  function Dedup<T(==,!new)>(xs: seq<T>): (r: seq<T>)
    ensures Distinct(r)
    ensures forall y :: y in r <==> y in xs
  {
    if xs == [] then []
    else
      var d := Dedup(xs[..|xs| - 1]);
      assert xs == xs[..|xs| - 1] + [xs[|xs| - 1]];
      if xs[|xs| - 1] in d then d else d + [xs[|xs| - 1]]
  }

  /** Python's `sorted(set(xs))`. */
  function SortedSet<T(==,!new)>(lt: (T, T) -> bool, xs: seq<T>): (r: seq<T>)
    requires StrictOrder(lt)
    ensures Sorted(lt, r) && Distinct(r)
    ensures forall y :: y in r <==> y in xs
  {
    var d := Dedup(xs);
    var r := Sort(lt, d);
    assert forall y :: y in r <==> y in multiset(d);
    r
  }

  lemma HeadIsMember<T>(s: seq<T>)
    requires s != []
    ensures s[0] in s
  {
  }

  /** The first element of a sorted sequence is below none of its elements. */
  lemma HeadIsLeast<T(!new)>(lt: (T, T) -> bool, s: seq<T>, y: T)
    requires StrictOrder(lt) && Sorted(lt, s) && y in s
    ensures !lt(y, s[0])
  {
    var k :| 0 <= k < |s| && s[k] == y;
    if k > 0 {
      assert !lt(s[k], s[0]);
    }
  }

  /** A set whose elements the order compares pairwise has exactly one sorted,
      repetition-free listing. */
  lemma {:induction false} SortedListingUnique<T(!new)>(lt: (T, T) -> bool, a: seq<T>, b: seq<T>)
    requires StrictOrder(lt)
    requires forall x, y :: x in a && y in a ==> x == y || lt(x, y) || lt(y, x)
    requires Sorted(lt, a) && Distinct(a) && Sorted(lt, b) && Distinct(b)
    requires forall y :: y in a <==> y in b
    ensures a == b
    decreases |a|
  {
    if a == [] {
      if b != [] {
        HeadIsMember(b);
        assert false;
      }
    } else if b == [] {
      HeadIsMember(a);
      assert false;
    } else {
      HeadIsMember(a);
      HeadIsMember(b);
      HeadIsLeast(lt, a, b[0]);
      HeadIsLeast(lt, b, a[0]);
      assert a[0] == b[0];
      forall y ensures y in a[1..] <==> y in b[1..] {
        if y in a[1..] {
          var k :| 0 <= k < |a[1..]| && a[1..][k] == y;
          assert a[k + 1] == y && y != a[0];
          assert y in b;
        }
        if y in b[1..] {
          var k :| 0 <= k < |b[1..]| && b[1..][k] == y;
          assert b[k + 1] == y && y != b[0];
          assert y in a;
        }
      }
      SortedListingUnique(lt, a[1..], b[1..]);
      assert a == [a[0]] + a[1..] && b == [b[0]] + b[1..];
    }
  }

  /** Python's `<` on `str`: code-point lexicographic order. */
  predicate LexLess(a: string, b: string)
    decreases |a|
  {
    if |a| == 0 then |b| > 0
    else if |b| == 0 then false
    else if a[0] != b[0] then a[0] < b[0]
    else LexLess(a[1..], b[1..])
  }

  lemma {:induction false} LexLessIrreflexive(a: string)
    ensures !LexLess(a, a)
    decreases |a|
  {
    if |a| > 0 {
      LexLessIrreflexive(a[1..]);
    }
  }

  lemma {:induction false} LexLessTransitive(a: string, b: string, c: string)
    requires LexLess(a, b) && LexLess(b, c)
    ensures LexLess(a, c)
    decreases |a|
  {
    if |a| > 0 && |b| > 0 && |c| > 0 && a[0] == b[0] && b[0] == c[0] {
      LexLessTransitive(a[1..], b[1..], c[1..]);
    }
  }

  lemma {:induction false} LexLessTrichotomous(a: string, b: string)
    ensures a == b || LexLess(a, b) || LexLess(b, a)
    decreases |a|
  {
    if |a| > 0 && |b| > 0 && a[0] == b[0] {
      LexLessTrichotomous(a[1..], b[1..]);
      if a[1..] == b[1..] {
        assert a == [a[0]] + a[1..] && b == [b[0]] + b[1..];
      }
    }
  }

  lemma LexLessIsStrictTotalOrder()
    ensures StrictTotalOrder(LexLess)
  {
    forall a ensures !LexLess(a, a) {
      LexLessIrreflexive(a);
    }
    forall a, b, c | LexLess(a, b) && LexLess(b, c) ensures LexLess(a, c) {
      LexLessTransitive(a, b, c);
    }
    forall a, b ensures a == b || LexLess(a, b) || LexLess(b, a) {
      LexLessTrichotomous(a, b);
    }
  }

  /** Python's `sorted(set(strings))`. */
  function SortedStrings(xs: seq<string>): (r: seq<string>)
    ensures Sorted(LexLess, r) && Distinct(r)
    ensures forall y :: y in r <==> y in xs
  {
    LexLessIsStrictTotalOrder();
    SortedSet(LexLess, xs)
  }

  /** Python's `sorted(strings)`, keeping repetitions. */
  function SortStrings(xs: seq<string>): (r: seq<string>)
    ensures Sorted(LexLess, r)
    ensures multiset(r) == multiset(xs)
  {
    LexLessIsStrictTotalOrder();
    Sort(LexLess, xs)
  }

  /** `sorted(set(...))` depends only on the set: listing an already sorted
      repetition-free sequence again changes nothing. */
  lemma SortedStringsFixpoint(xs: seq<string>)
    requires Sorted(LexLess, xs) && Distinct(xs)
    ensures SortedStrings(xs) == xs
  {
    LexLessIsStrictTotalOrder();
    SortedListingUnique(LexLess, SortedStrings(xs), xs);
  }
}
