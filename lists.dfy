/** The two sequence operations the application lifecycle performs on a
    user's job-id arrays (`push` and `filter(id => id !== x)`), and the facts
    about them that the lifecycle properties rest on. */
module Lists {

  /** `xs.filter(y => y !== x)`: every occurrence of `x` removed. */
  function Without<T(==,!new)>(xs: seq<T>, x: T): (r: seq<T>)
    ensures |r| <= |xs|
    ensures forall y :: y in r <==> y in xs && y != x
  {
    if xs == [] then []
    else if xs[0] == x then Without(xs[1..], x)
    else [xs[0]] + Without(xs[1..], x)
  }

  /** `r` is obtained from `xs` by deleting some elements, keeping the order
      of the rest: the head of `xs` is either kept as the head of `r` or
      dropped. */
  predicate IsSubsequence<T(==,!new)>(r: seq<T>, xs: seq<T>)
    decreases |xs|
  {
    || r == []
    || (xs != [] && ((r[0] == xs[0] && IsSubsequence(r[1..], xs[1..])) || IsSubsequence(r, xs[1..])))
  }

  /** Every element occurs at most once. */
  ghost predicate Distinct<T(!new)>(xs: seq<T>) {
    forall y :: multiset(xs)[y] <= 1
  }

  /** Removing `x` deletes all of its occurrences and keeps every other
      element with its multiplicity. */
  lemma {:induction false} WithoutMultiset<T(!new)>(xs: seq<T>, x: T)
    ensures multiset(Without(xs, x)) == multiset(xs)[x := 0]
  {
    if xs != [] {
      WithoutMultiset(xs[1..], x);
      assert xs == [xs[0]] + xs[1..];
      assert multiset(xs) == multiset{xs[0]} + multiset(xs[1..]);
    }
  }

  /** The filter keeps the survivors in their original relative order. */
  lemma {:induction false} WithoutIsSubsequence<T(!new)>(xs: seq<T>, x: T)
    ensures IsSubsequence(Without(xs, x), xs)
  {
    if xs != [] {
      WithoutIsSubsequence(xs[1..], x);
      if xs[0] != x {
        assert Without(xs, x)[1..] == Without(xs[1..], x);
      }
    }
  }

  /** A subsequence never holds more copies of an element than its source. */
  lemma {:induction false} SubsequenceMultiset<T(!new)>(r: seq<T>, xs: seq<T>)
    requires IsSubsequence(r, xs)
    ensures multiset(r) <= multiset(xs)
    decreases |xs|
  {
    if r != [] {
      assert xs == [xs[0]] + xs[1..];
      if r[0] == xs[0] && IsSubsequence(r[1..], xs[1..]) {
        SubsequenceMultiset(r[1..], xs[1..]);
        assert r == [r[0]] + r[1..];
      } else {
        SubsequenceMultiset(r, xs[1..]);
      }
    }
  }

  /** Reference characterisation of the filter: the only subsequence of `xs`
      that keeps every element other than `x` with its multiplicity, and no
      `x`, is `Without(xs, x)`. Together with `WithoutMultiset` and
      `WithoutIsSubsequence` this says the filter keeps the relative order of
      all other ids and nothing else. */
  lemma {:induction false} WithoutUnique<T(!new)>(r: seq<T>, xs: seq<T>, x: T)
    requires IsSubsequence(r, xs)
    requires multiset(r) == multiset(xs)[x := 0]
    ensures r == Without(xs, x)
    decreases |xs|
  {
    if xs == [] {
      assert multiset(r) == multiset{};
    } else {
      var h, t := xs[0], xs[1..];
      assert xs == [h] + t;
      assert multiset(xs) == multiset{h} + multiset(t);
      if h == x {
        assert multiset(t)[x := 0] == multiset(xs)[x := 0];
        if r != [] {
          assert r[0] in multiset(r);
          assert r[0] != h;
        }
        assert IsSubsequence(r, t);
        WithoutUnique(r, t, x);
      } else {
        assert multiset(r)[h] == multiset(xs)[h] >= 1;
        assert r != [];
        if r[0] == h && IsSubsequence(r[1..], t) {
          assert r == [h] + r[1..];
          assert multiset(r) == multiset{h} + multiset(r[1..]);
          forall y ensures multiset(r[1..])[y] == multiset(t)[x := 0][y] {
            assert multiset(r)[y] == multiset(xs)[x := 0][y];
          }
          assert multiset(r[1..]) == multiset(t)[x := 0];
          WithoutUnique(r[1..], t, x);
        } else {
          assert IsSubsequence(r, t);
          SubsequenceMultiset(r, t);
          assert false;
        }
      }
    }
  }

  /** Filtering distributes over concatenation. */
  lemma {:induction false} WithoutAppend<T(!new)>(xs: seq<T>, ys: seq<T>, x: T)
    ensures Without(xs + ys, x) == Without(xs, x) + Without(ys, x)
  {
    if xs != [] {
      WithoutAppend(xs[1..], ys, x);
      assert (xs + ys)[1..] == xs[1..] + ys;
    } else {
      assert xs + ys == ys;
    }
  }

  /** Filtering out an element that is not there changes nothing. */
  lemma {:induction false} WithoutAbsent<T(!new)>(xs: seq<T>, x: T)
    requires x !in xs
    ensures Without(xs, x) == xs
  {
    if xs != [] {
      WithoutAbsent(xs[1..], x);
      assert xs == [xs[0]] + xs[1..];
    }
  }

  /** Removing every `x` and then pushing `x`, as the status resolution does,
      leaves `x` exactly once, at the end, and is unaffected by a previous
      round of the same removal and push. */
  lemma RemoveThenPush<T(!new)>(xs: seq<T>, x: T)
    ensures var r := Without(xs, x) + [x];
      && r[|r| - 1] == x
      && multiset(r)[x] == 1
      && Without(r, x) == Without(xs, x)
  {
    WithoutMultiset(xs, x);
    WithoutAppend(Without(xs, x), [x], x);
    WithoutAbsent(Without(xs, x), x);
    assert Without([x], x) == [];
  }

  /** Filtering keeps a list free of duplicates, and pushing an absent element
      onto a duplicate-free list keeps it so. */
  lemma DistinctWithout<T(!new)>(xs: seq<T>, x: T)
    requires Distinct(xs)
    ensures Distinct(Without(xs, x))
    ensures Distinct(Without(xs, x) + [x])
  {
    WithoutMultiset(xs, x);
    assert multiset(Without(xs, x) + [x]) == multiset(Without(xs, x)) + multiset{x};
  }

  /** Pushing an element that is not yet present keeps a list duplicate-free. */
  lemma DistinctPush<T(!new)>(xs: seq<T>, x: T)
    requires Distinct(xs) && x !in xs
    ensures Distinct(xs + [x])
  {
  }
}
