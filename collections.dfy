/**
 * Sequence helpers standing in for the Ruby library calls the generators use:
 * `Array#uniq`, `Array#index`, `Array#delete`, `Enumerable#sort_by` and
 * `Array#last`, `Array#sample` and the iteration of a `Set`. Each states what
 * the library call promises; the two that make a choice the library leaves
 * open (the order a set is walked in, the entries a sample draws) are methods
 * that pick with `:|`.
 */
module Collections {

  datatype Option<T> = None | Some(value: T)

  /** No element occurs twice. */
  predicate Distinct<T(==)>(s: seq<T>) {
    forall i, j :: 0 <= i < j < |s| ==> s[i] != s[j]
  }

  /** The elements of a sequence, as a set. */
  ghost function Elements<T>(s: seq<T>): set<T> {
    set x | x in s
  }

  lemma ElementsSnoc<T>(s: seq<T>)
    requires s != []
    ensures Elements(s) == Elements(s[..|s| - 1]) + {s[|s| - 1]}
  {
    assert s == s[..|s| - 1] + [s[|s| - 1]];
  }

  /** A list without duplicates has as many elements as entries. */
  lemma {:induction false} DistinctElements<T>(s: seq<T>)
    requires Distinct(s)
    ensures |Elements(s)| == |s|
  {
    if s != [] {
      var init := s[..|s| - 1];
      assert Distinct(init);
      DistinctElements(init);
      ElementsSnoc(s);
      assert s[|s| - 1] !in init;
    }
  }

  /** `Array#uniq`: keeps the first occurrence of every element, in order. */
  function Uniq<T(==)>(s: seq<T>): (u: seq<T>)
    ensures Distinct(u)
    ensures forall i :: 0 <= i < |u| ==> u[i] in s
    ensures forall i :: 0 <= i < |s| ==> s[i] in u
    ensures |u| <= |s|
    ensures Subsequence(u, s)
    decreases |s|
  {
    if s == [] then []
    else
      var rest := Uniq(s[..|s| - 1]);
      if s[|s| - 1] in rest then rest
      else
        assert (rest + [s[|s| - 1]])[..|rest|] == rest;
        rest + [s[|s| - 1]]
  }

  /** `Array#index`: the position of the first occurrence of `x`. */
  function IndexOf<T(==)>(s: seq<T>, x: T): (i: nat)
    requires x in s
    ensures i < |s| && s[i] == x
    ensures forall j :: 0 <= j < i ==> s[j] != x
  {
    if s[0] == x then 0 else 1 + IndexOf(s[1..], x)
  }

  /** `uniq` keeps each element at its first occurrence: the kept entries
      appear in the order in which their values first occur in `s`. */
  lemma {:induction false} UniqKeepsFirst<T>(s: seq<T>)
    ensures forall i, j :: 0 <= i < j < |Uniq(s)| ==> IndexOf(s, Uniq(s)[i]) < IndexOf(s, Uniq(s)[j])
  {
    if s != [] {
      var init := s[..|s| - 1];
      var last := s[|s| - 1];
      UniqKeepsFirst(init);
      forall x | x in init ensures IndexOf(s, x) == IndexOf(init, x) {
        assert s[IndexOf(init, x)] == x;
      }
      if last !in Uniq(init) {
        assert last !in init;
        assert IndexOf(s, last) == |s| - 1;
        assert Uniq(s) == Uniq(init) + [last];
      }
    }
  }

  /** `s` with every element of `xs` deleted (`Array#delete` deletes one value). */
  function Without<T(==)>(s: seq<T>, xs: set<T>): (r: seq<T>)
    ensures forall i :: 0 <= i < |r| ==> r[i] in s && r[i] !in xs
    ensures forall i :: 0 <= i < |s| && s[i] !in xs ==> s[i] in r
    ensures |r| <= |s|
  {
    if s == [] then []
    else (if s[0] in xs then [] else [s[0]]) + Without(s[1..], xs)
  }

  /** Deleting values the list does not hold changes nothing. */
  lemma {:induction false} WithoutNone<T>(s: seq<T>, xs: set<T>)
    requires forall i :: 0 <= i < |s| ==> s[i] !in xs
    ensures Without(s, xs) == s
  {
    if s != [] {
      WithoutNone(s[1..], xs);
      assert s == [s[0]] + s[1..];
    }
  }

  /** Deleting one more value after a batch is deleting the larger batch. */
  lemma {:induction false} WithoutTwice<T>(s: seq<T>, xs: set<T>, x: T)
    ensures Without(Without(s, xs), {x}) == Without(s, xs + {x})
  {
    if s != [] {
      WithoutTwice(s[1..], xs, x);
      if s[0] in xs {
        assert Without(s, xs) == Without(s[1..], xs);
      } else {
        assert Without(s, xs) == [s[0]] + Without(s[1..], xs);
        assert Without(s, xs)[1..] == Without(s[1..], xs);
      }
    }
  }

  /** Deleting the elements of a prefix one at a time. */
  lemma WithoutPrefix<T>(s: seq<T>, xs: seq<T>, i: nat)
    requires i < |xs|
    ensures Without(Without(s, Elements(xs[..i])), {xs[i]}) == Without(s, Elements(xs[..i + 1]))
  {
    WithoutTwice(s, Elements(xs[..i]), xs[i]);
    ElementsSnoc(xs[..i + 1]);
    assert xs[..i + 1][..i] == xs[..i];
  }

  /** Deleting `xs` from a list without duplicates removes exactly `|xs|` entries. */
  lemma {:induction false} WithoutSize<T>(s: seq<T>, xs: set<T>)
    requires Distinct(s)
    requires forall x :: x in xs ==> x in s
    ensures |Without(s, xs)| == |s| - |xs|
  {
    if s == [] {
      assert xs == {};
    } else {
      var tail := s[1..];
      DistinctTail(s);
      var rest := xs - {s[0]};
      assert forall x :: x in rest ==> x in tail by {
        forall x | x in rest ensures x in tail {
          assert x in s;
          assert x == s[0] || x in tail;
        }
      }
      WithoutSize(tail, rest);
      WithoutSame(tail, rest, xs);
      if s[0] in xs {
        assert |rest| == |xs| - 1;
      } else {
        assert rest == xs;
      }
    }
  }

  /** Deleting entries keeps a list free of duplicates. */
  lemma {:induction false} WithoutDistinct<T>(s: seq<T>, xs: set<T>)
    requires Distinct(s)
    ensures Distinct(Without(s, xs))
  {
    if s != [] {
      var tail := s[1..];
      DistinctTail(s);
      WithoutDistinct(tail, xs);
      var w := Without(tail, xs);
      if s[0] !in xs {
        assert s[0] !in w;
        assert Without(s, xs) == [s[0]] + w;
      }
    }
  }

  /** The tail of a list without duplicates has none and lacks the head. */
  /** A list without duplicates holds each value at most once. */
  lemma {:induction false} DistinctCount<T>(s: seq<T>, x: T)
    requires Distinct(s)
    ensures multiset(s)[x] <= 1
  {
    if s != [] {
      DistinctTail(s);
      DistinctCount(s[1..], x);
      assert s == [s[0]] + s[1..];
    }
  }

  /** Two entries of a list holding `b[i]` at most once differ. */
  lemma CountOnce<T>(b: seq<T>, i: nat, j: nat)
    requires i < j < |b| && multiset(b)[b[i]] <= 1
    ensures b[i] != b[j]
  {
    assert b == b[..j] + b[j..];
    assert b[..j][i] == b[i] && b[j..][0] == b[j];
  }

  /** A rearrangement of a list without duplicates has none. */
  lemma MultisetDistinct<T>(a: seq<T>, b: seq<T>)
    requires multiset(a) == multiset(b) && Distinct(a)
    ensures Distinct(b)
  {
    forall i, j | 0 <= i < j < |b| ensures b[i] != b[j] {
      DistinctCount(a, b[i]);
      CountOnce(b, i, j);
    }
  }

  lemma DistinctTail<T>(s: seq<T>)
    requires Distinct(s) && s != []
    ensures Distinct(s[1..]) && s[0] !in s[1..]
  {
    var tail := s[1..];
    forall i, j | 0 <= i < j < |tail| ensures tail[i] != tail[j] {
      assert tail[i] == s[i + 1] && tail[j] == s[j + 1];
    }
    forall k | 0 <= k < |tail| ensures tail[k] != s[0] {
      assert tail[k] == s[k + 1];
    }
  }

  /** Deleting sets that agree on the elements of `s` gives the same list. */
  lemma {:induction false} WithoutSame<T>(s: seq<T>, xs: set<T>, ys: set<T>)
    requires forall x :: x in s ==> (x in xs <==> x in ys)
    ensures Without(s, xs) == Without(s, ys)
  {
    if s != [] {
      assert forall x :: x in s[1..] ==> x in s;
      WithoutSame(s[1..], xs, ys);
    }
  }

  /** `x` is `y` with some entries dropped, order kept. */
  predicate Subsequence<T(==)>(x: seq<T>, y: seq<T>)
    decreases |y|
  {
    x == [] ||
    (y != [] &&
     ((x[|x| - 1] == y[|y| - 1] && Subsequence(x[..|x| - 1], y[..|y| - 1])) ||
      Subsequence(x, y[..|y| - 1])))
  }

  /** Every element of a subsequence is an element of the whole. */
  lemma {:induction false} SubsequenceElements<T>(x: seq<T>, y: seq<T>)
    requires Subsequence(x, y)
    ensures forall v :: v in x ==> v in y
    decreases |y|
  {
    if x != [] {
      var y' := y[..|y| - 1];
      if x[|x| - 1] == y[|y| - 1] && Subsequence(x[..|x| - 1], y') {
        SubsequenceElements(x[..|x| - 1], y');
        assert x == x[..|x| - 1] + [x[|x| - 1]];
      } else {
        SubsequenceElements(x, y');
      }
    }
  }

  /** Ascending by `key`. */
  predicate SortedBy<T>(s: seq<T>, key: T -> real) {
    forall i, j :: 0 <= i < j < |s| ==> key(s[i]) <= key(s[j])
  }

  /** Inserts `x` into a list that is ascending by `key`. */
  function InsertBy<T>(x: T, s: seq<T>, key: T -> real): (r: seq<T>)
    requires SortedBy(s, key)
    ensures SortedBy(r, key)
    ensures multiset(r) == multiset(s) + multiset{x}
    ensures |r| == |s| + 1
  {
    if s == [] then [x]
    else if key(x) <= key(s[0]) then [x] + s
    else
      var rest := InsertBy(x, s[1..], key);
      assert s == [s[0]] + s[1..];
      assert forall i :: 0 <= i < |rest| ==> key(s[0]) <= key(rest[i]) by {
        forall i | 0 <= i < |rest| ensures key(s[0]) <= key(rest[i]) {
          assert rest[i] in multiset(rest);
          if rest[i] != x {
            assert rest[i] in multiset(s[1..]);
            var k :| 0 <= k < |s[1..]| && s[1..][k] == rest[i];
            assert s[k + 1] == rest[i];
          }
        }
      }
      [s[0]] + rest
  }

  /** `Enumerable#sort_by`: an ascending permutation of `s` (one of the orders the
      library may return when keys tie). */
  function SortBy<T>(s: seq<T>, key: T -> real): (r: seq<T>)
    ensures SortedBy(r, key)
    ensures multiset(r) == multiset(s)
    ensures |r| == |s|
  {
    if s == [] then []
    else
      assert s == [s[0]] + s[1..];
      InsertBy(s[0], SortBy(s[1..], key), key)
  }

  /** `Array#last(k)`: the final `min(k, |s|)` entries. */
  function Last<T>(s: seq<T>, k: nat): (r: seq<T>)
    ensures |r| == if k <= |s| then k else |s|
    ensures forall i :: 0 <= i < |r| ==> r[i] == s[|s| - |r| + i]
  {
    if k <= |s| then s[|s| - k..] else s
  }

  function Max(a: int, b: int): int {
    if a < b then b else a
  }

  function Min(a: int, b: int): int {
    if a < b then a else b
  }

  /** The positions `0 .. n-1`. */
  lemma BelowIs(n: nat, s: set<nat>)
    requires forall i: nat :: i in s <==> i < n
    ensures |s| == n
    decreases n
  {
    if n > 0 {
      var rest := s - {n - 1};
      BelowIs(n - 1, rest);
    }
  }

  /** Walking a set: each element once, in an order the library chooses. */
  method Enumerate<T>(s: set<T>) returns (order: seq<T>)
    ensures Elements(order) == s && Distinct(order)
  {
    order := [];
    var todo := s;
    while todo != {}
      invariant todo <= s && Elements(order) == s - todo && Distinct(order)
      decreases todo
    {
      var x :| x in todo;
      ElementsSnoc(order + [x]);
      assert (order + [x])[..|order|] == order;
      order := order + [x];
      todo := todo - {x};
    }
  }

  /** `Array#sample(k)` on a list of length `n`: `min(k, n)` distinct positions,
      in a random order. */
  method Sample(n: nat, k: nat) returns (picks: seq<nat>)
    ensures |picks| == Min(k, n) && Distinct(picks)
    ensures forall j :: 0 <= j < |picks| ==> picks[j] < n
  {
    var avail: set<nat> := {};
    for i := 0 to n
      invariant forall x: nat :: x in avail <==> x < i
    {
      avail := avail + {i};
    }
    BelowIs(n, avail);
    picks := [];
    while |picks| < k && avail != {}
      invariant |avail| + |picks| == n && |picks| <= k && Distinct(picks)
      invariant forall i :: i in avail ==> i < n && i !in picks
      invariant forall j :: 0 <= j < |picks| ==> picks[j] < n
      decreases avail
    {
      var i :| i in avail;
      picks := picks + [i];
      avail := avail - {i};
    }
  }
}
