/**
 * Order-theoretic helpers for the reference querier: a stable sort (what Go's
 * `sort.SliceStable` promises, not how it works), an order-preserving filter,
 * and the facts that two stable sorts in a row give a lexicographic order and
 * that a sorted permutation is unique.
 */
module Sorting {

  /** `less` is a strict weak order: irreflexive, transitive, and incomparability is transitive. */
  ghost predicate StrictWeakOrder<T(!new)>(less: (T, T) -> bool)
  {
    && (forall a :: !less(a, a))
    && (forall a, b, c :: less(a, b) && less(b, c) ==> less(a, c))
    && (forall a, b, c :: less(a, c) ==> less(a, b) || less(b, c))
  }

  /** No element is less than an element before it. */
  ghost predicate SortedBy<T>(less: (T, T) -> bool, s: seq<T>)
  {
    forall i, j :: 0 <= i < j < |s| ==> !less(s[j], s[i])
  }

  /** Every element is less than every element after it. */
  ghost predicate StrictlySortedBy<T>(less: (T, T) -> bool, s: seq<T>)
  {
    forall i, j :: 0 <= i < j < |s| ==> less(s[i], s[j])
  }

  /** Order by `less`, and among elements `less` cannot tell apart, by `tie`. */
  function Then<T>(less: (T, T) -> bool, tie: (T, T) -> bool): (T, T) -> bool
  {
    (a, b) => less(a, b) || (!less(b, a) && tie(a, b))
  }

  function Flip<T>(less: (T, T) -> bool): (T, T) -> bool
  {
    (a, b) => less(b, a)
  }

  /** Puts `x` before the first element of `t` that it is less than. */
  function Insert<T>(less: (T, T) -> bool, x: T, t: seq<T>): (r: seq<T>)
    ensures multiset(r) == multiset(t) + multiset{x}
  {
    if t == [] then [x]
    else if less(x, t[0]) then [x] + t
    else
      assert t == [t[0]] + t[1..];
      [t[0]] + Insert(less, x, t[1..])
  }

  /** A stable sort: each element ends up after every earlier element it is not less than. */
  function Sort<T>(less: (T, T) -> bool, s: seq<T>): (r: seq<T>)
    ensures multiset(r) == multiset(s)
  {
    if s == [] then []
    else
      assert s == s[..|s| - 1] + [s[|s| - 1]];
      Insert(less, s[|s| - 1], Sort(less, s[..|s| - 1]))
  }

  /** The elements of `s` that satisfy `p`, in their order in `s`. */
  function Filter<T>(p: T -> bool, s: seq<T>): (r: seq<T>)
    ensures |r| <= |s|
    ensures forall x :: x in r ==> x in s && p(x)
  {
    if s == [] then []
    else Filter(p, s[..|s| - 1]) + (if p(s[|s| - 1]) then [s[|s| - 1]] else [])
  }

  function Reverse<T>(s: seq<T>): (r: seq<T>)
    ensures |r| == |s|
    ensures forall i :: 0 <= i < |s| ==> r[i] == s[|s| - 1 - i]
  {
    if s == [] then [] else Reverse(s[1..]) + [s[0]]
  }

  lemma MultisetLength<T>(s: seq<T>, t: seq<T>)
    requires multiset(s) == multiset(t)
    ensures |s| == |t|
  {
    assert |multiset(s)| == |s| && |multiset(t)| == |t|;
  }

  lemma InMultiset<T>(x: T, s: seq<T>, t: seq<T>)
    requires multiset(s) == multiset(t)
    ensures x in s <==> x in t
  {
    assert x in s <==> x in multiset(s);
    assert x in t <==> x in multiset(t);
  }

  lemma ConsSorted<T>(less: (T, T) -> bool, a: T, s: seq<T>)
    requires SortedBy(less, s)
    requires forall z :: z in s ==> !less(z, a)
    ensures SortedBy(less, [a] + s)
  {
    var r := [a] + s;
    forall i, j | 0 <= i < j < |r| ensures !less(r[j], r[i]) {
      if i == 0 {
        assert r[j] in s;
      } else {
        assert r[i] == s[i - 1] && r[j] == s[j - 1];
      }
    }
  }

  lemma SortedTail<T>(less: (T, T) -> bool, s: seq<T>)
    requires SortedBy(less, s) && |s| > 0
    ensures SortedBy(less, s[1..])
    ensures forall z :: z in s[1..] ==> !less(z, s[0])
  {
    forall z | z in s[1..] ensures !less(z, s[0]) {
      var j :| 0 <= j < |s[1..]| && s[1..][j] == z;
      assert s[j + 1] == z;
    }
  }

  lemma {:induction false} InsertSorted<T(!new)>(less: (T, T) -> bool, x: T, t: seq<T>)
    requires StrictWeakOrder(less)
    requires SortedBy(less, t)
    ensures SortedBy(less, Insert(less, x, t))
    decreases |t|
  {
    if t == [] {
    } else if less(x, t[0]) {
      SortedTail(less, t);
      forall z | z in t ensures !less(z, x) {
        if z == t[0] {
        } else {
          assert z in t[1..] by { assert t == [t[0]] + t[1..]; }
        }
      }
      ConsSorted(less, x, t);
    } else {
      SortedTail(less, t);
      InsertSorted(less, x, t[1..]);
      var r := Insert(less, x, t[1..]);
      forall z | z in r ensures !less(z, t[0]) {
        assert z in multiset(r);
        assert z in t[1..] || z == x;
      }
      ConsSorted(less, t[0], r);
    }
  }

  /** A stable sort by a strict weak order leaves its output sorted. */
  lemma {:induction false} SortSorted<T(!new)>(less: (T, T) -> bool, s: seq<T>)
    requires StrictWeakOrder(less)
    ensures SortedBy(less, Sort(less, s))
    decreases |s|
  {
    if s != [] {
      SortSorted(less, s[..|s| - 1]);
      InsertSorted(less, s[|s| - 1], Sort(less, s[..|s| - 1]));
    }
  }

  lemma {:induction false} InsertThen<T(!new)>(less: (T, T) -> bool, tie: (T, T) -> bool, x: T, t: seq<T>)
    requires StrictWeakOrder(less)
    requires SortedBy(Then(less, tie), t)
    requires forall y :: y in t ==> !tie(x, y)
    ensures SortedBy(Then(less, tie), Insert(less, x, t))
    decreases |t|
  {
    var th := Then(less, tie);
    if t == [] {
    } else if less(x, t[0]) {
      SortedTail(th, t);
      forall z | z in t ensures !th(z, x) {
        if z != t[0] {
          assert z in t[1..] by { assert t == [t[0]] + t[1..]; }
          assert !less(z, t[0]);
        }
        assert less(x, z);
      }
      ConsSorted(th, x, t);
    } else {
      SortedTail(th, t);
      assert forall y :: y in t[1..] ==> y in t;
      InsertThen(less, tie, x, t[1..]);
      var r := Insert(less, x, t[1..]);
      forall z | z in r ensures !th(z, t[0]) {
        assert z in multiset(r);
        assert z in t[1..] || z == x;
      }
      ConsSorted(th, t[0], r);
    }
  }

  /**
   * Stable-sorting by `less` a sequence already sorted by `tie` sorts it by
   * `less` first and `tie` second: what two `sort.SliceStable` calls in a row give.
   */
  lemma {:induction false} SortThen<T(!new)>(less: (T, T) -> bool, tie: (T, T) -> bool, s: seq<T>)
    requires StrictWeakOrder(less)
    requires SortedBy(tie, s)
    ensures SortedBy(Then(less, tie), Sort(less, s))
    decreases |s|
  {
    if s != [] {
      var init, x := s[..|s| - 1], s[|s| - 1];
      assert SortedBy(tie, init);
      SortThen(less, tie, init);
      var t := Sort(less, init);
      forall y | y in t ensures !tie(x, y) {
        InMultiset(y, t, init);
        var i :| 0 <= i < |init| && init[i] == y;
        assert s[i] == y;
      }
      InsertThen(less, tie, x, t);
    }
  }

  /** Two sequences sorted by the same order that is total on their elements and with the same elements are equal. */
  lemma {:induction false} SortedUnique<T>(lt: (T, T) -> bool, s: seq<T>, t: seq<T>)
    requires SortedBy(lt, s) && SortedBy(lt, t)
    requires multiset(s) == multiset(t)
    requires forall a, b :: a in s && b in s && a != b ==> lt(a, b) || lt(b, a)
    ensures s == t
    decreases |s|
  {
    MultisetLength(s, t);
    if s != [] {
      if s[0] != t[0] {
        InMultiset(t[0], s, t);
        InMultiset(s[0], s, t);
        assert false;
      }
      assert s == [s[0]] + s[1..] && t == [t[0]] + t[1..];
      var ms, mt := multiset(s[1..]), multiset(t[1..]);
      assert multiset(s) == multiset{s[0]} + ms;
      assert multiset(t) == multiset{s[0]} + mt;
      forall x ensures ms[x] == mt[x] {
        assert (multiset{s[0]} + ms)[x] == (multiset{s[0]} + mt)[x];
      }
      assert ms <= mt && mt <= ms;
      SortedTail(lt, s);
      SortedTail(lt, t);
      assert forall a :: a in s[1..] ==> a in s;
      SortedUnique(lt, s[1..], t[1..]);
    }
  }

  lemma {:induction false} FilterMultiset<T>(p: T -> bool, s: seq<T>, x: T)
    ensures multiset(Filter(p, s))[x] == if p(x) then multiset(s)[x] else 0
    decreases |s|
  {
    if s != [] {
      FilterMultiset(p, s[..|s| - 1], x);
      assert s == s[..|s| - 1] + [s[|s| - 1]];
    }
  }

  /** Filtering two permutations of each other gives permutations of each other. */
  lemma FilterPermutation<T>(p: T -> bool, s: seq<T>, t: seq<T>)
    requires multiset(s) == multiset(t)
    ensures multiset(Filter(p, s)) == multiset(Filter(p, t))
  {
    var fs, ft := multiset(Filter(p, s)), multiset(Filter(p, t));
    forall x
      ensures fs[x] == ft[x]
    {
      FilterMultiset(p, s, x);
      FilterMultiset(p, t, x);
    }
    EqualCounts(fs, ft);
  }

  lemma EqualCounts<T>(a: multiset<T>, b: multiset<T>)
    requires forall x :: a[x] == b[x]
    ensures a == b
  {
  }

  /** Filtering a prefix by a test that holds exactly at the indices `lo` to `hi - 1` keeps that part of the prefix. */
  lemma {:induction false} FilterInterval<T>(p: T -> bool, s: seq<T>, lo: nat, hi: nat, n: nat)
    requires lo <= hi <= |s| && n <= |s|
    requires forall i :: 0 <= i < |s| ==> (p(s[i]) <==> lo <= i < hi)
    ensures Filter(p, s[..n]) == s[(if n < lo then n else lo)..(if n < hi then n else hi)]
    decreases n
  {
    if n > 0 {
      FilterInterval(p, s, lo, hi, n - 1);
      FilterStep(p, s, n);
      var x := s[n - 1];
      if n - 1 < lo {
        assert !p(x);
        assert Filter(p, s[..n]) == [];
      } else if n - 1 < hi {
        assert p(x);
        assert Filter(p, s[..n]) == s[lo..n - 1] + [x];
        SliceSnoc(s, lo, n);
      } else {
        assert !p(x);
        assert Filter(p, s[..n]) == s[lo..hi];
      }
    }
  }

  lemma SliceSnoc<T>(s: seq<T>, lo: nat, n: nat)
    requires lo < n <= |s|
    ensures s[lo..n] == s[lo..n - 1] + [s[n - 1]]
  {
  }

  /** In a strictly sorted sequence, the elements after `s[b - 1]` are exactly the suffix from `b`. */
  lemma FilterAfter<T(!new)>(lt: (T, T) -> bool, p: T -> bool, s: seq<T>, b: nat, n: nat)
    requires StrictWeakOrder(lt)
    requires StrictlySortedBy(lt, s)
    requires 0 < b <= n <= |s|
    requires forall x :: p(x) == lt(s[b - 1], x)
    ensures Filter(p, s[..n]) == s[b..n]
  {
    forall i | 0 <= i < |s| ensures p(s[i]) <==> b <= i < |s| {
      if i < b - 1 {
        assert lt(s[i], s[b - 1]);
      }
    }
    FilterInterval(p, s, b, |s|, n);
  }

  /** In a strictly sorted sequence, the elements before `s[b]` are exactly the prefix up to `b`. */
  lemma FilterBefore<T(!new)>(lt: (T, T) -> bool, p: T -> bool, s: seq<T>, b: nat, n: nat)
    requires StrictWeakOrder(lt)
    requires StrictlySortedBy(lt, s)
    requires b < |s| && n <= |s|
    requires forall x :: p(x) == lt(x, s[b])
    ensures Filter(p, s[..n]) == s[..if n < b then n else b]
  {
    forall i | 0 <= i < |s| ensures p(s[i]) <==> 0 <= i < b {
      if b < i {
        assert lt(s[b], s[i]);
      }
    }
    FilterInterval(p, s, 0, b, n);
  }

  /** Filtering a prefix one element longer. */
  lemma FilterStep<T>(p: T -> bool, s: seq<T>, n: nat)
    requires 0 < n <= |s|
    ensures Filter(p, s[..n]) == Filter(p, s[..n - 1]) + (if p(s[n - 1]) then [s[n - 1]] else [])
  {
    assert s[..n][..n - 1] == s[..n - 1];
  }


  lemma {:induction false} ReverseSorted<T>(lt: (T, T) -> bool, s: seq<T>)
    requires SortedBy(lt, s)
    ensures SortedBy(Flip(lt), Reverse(s))
  {
    var r := Reverse(s);
    forall i, j | 0 <= i < j < |r| ensures !Flip(lt)(r[j], r[i]) {
      assert r[i] == s[|s| - 1 - i] && r[j] == s[|s| - 1 - j];
    }
  }

  /** Sortedness depends only on the values the order gives. */
  lemma SortedBySame<T>(lt1: (T, T) -> bool, lt2: (T, T) -> bool, s: seq<T>)
    requires forall a, b :: lt1(a, b) == lt2(a, b)
    requires SortedBy(lt1, s)
    ensures SortedBy(lt2, s)
  {
  }

  /** A sequence sorted by an order that is total on its distinct elements, without repeats, is strictly sorted. */
  lemma Strictly<T>(lt: (T, T) -> bool, s: seq<T>)
    requires SortedBy(lt, s)
    requires forall i, j :: 0 <= i < j < |s| ==> s[i] != s[j]
    requires forall a, b :: a in s && b in s && a != b ==> lt(a, b) || lt(b, a)
    ensures StrictlySortedBy(lt, s)
  {
    forall i, j | 0 <= i < j < |s| ensures lt(s[i], s[j]) {
      assert s[i] in s && s[j] in s;
    }
  }

  /** The converse of a strict weak order is one. */
  lemma FlipOrder<T(!new)>(less: (T, T) -> bool)
    requires StrictWeakOrder(less)
    ensures StrictWeakOrder(Flip(less))
  {
  }

  lemma {:induction false} InsertLast<T>(less: (T, T) -> bool, x: T, t: seq<T>)
    requires forall y :: y in t ==> !less(x, y)
    ensures Insert(less, x, t) == t + [x]
    decreases |t|
  {
    if t != [] {
      InsertLast(less, x, t[1..]);
      assert t == [t[0]] + t[1..];
    }
  }

  /** A stable sort leaves an already sorted sequence as it is. */
  lemma {:induction false} SortIdentity<T>(less: (T, T) -> bool, s: seq<T>)
    requires SortedBy(less, s)
    ensures Sort(less, s) == s
    decreases |s|
  {
    if s != [] {
      var init, x := s[..|s| - 1], s[|s| - 1];
      SortedPrefix(less, s);
      SortIdentity(less, init);
      LastNotLess(less, s, init);
      InsertLast(less, x, init);
      assert init + [x] == s;
    }
  }

  lemma SortedPrefix<T>(less: (T, T) -> bool, s: seq<T>)
    requires SortedBy(less, s) && |s| > 0
    ensures SortedBy(less, s[..|s| - 1])
  {
    var init := s[..|s| - 1];
    forall i, j | 0 <= i < j < |init| ensures !less(init[j], init[i]) {
      assert init[i] == s[i] && init[j] == s[j];
    }
  }

  lemma LastNotLess<T>(less: (T, T) -> bool, s: seq<T>, init: seq<T>)
    requires SortedBy(less, s) && |s| > 0 && init == s[..|s| - 1]
    ensures forall y :: y in init ==> !less(s[|s| - 1], y)
  {
    forall y | y in init ensures !less(s[|s| - 1], y) {
      var i :| 0 <= i < |init| && init[i] == y;
      assert s[i] == y;
    }
  }

  lemma {:induction false} ReverseMultiset<T>(s: seq<T>)
    ensures multiset(Reverse(s)) == multiset(s)
  {
    if s != [] {
      ReverseMultiset(s[1..]);
      assert s == [s[0]] + s[1..];
    }
  }

  /** Ordering by `less` and then by `tie` is a strict weak order when both are. */
  lemma ThenOrder<T(!new)>(less: (T, T) -> bool, tie: (T, T) -> bool)
    requires StrictWeakOrder(less) && StrictWeakOrder(tie)
    ensures StrictWeakOrder(Then(less, tie))
  {
    var th := Then(less, tie);
    forall a, b, c | th(a, b) && th(b, c) ensures th(a, c) {
      if !less(a, c) && !less(c, a) {
        assert !less(a, b) && !less(b, c);
      }
    }
    forall a, b, c | th(a, c) ensures th(a, b) || th(b, c) {
    }
  }
}
