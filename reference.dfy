/**
 * The reference querier of pagination_test.go over rows with distinct `Pkey`s:
 * a first page is the start of the method's canonical order, and a cursor made
 * from a row gives the rows after it (`next`) or before it, nearest first (`prev`).
 */
module ReferenceQuerier {
  import opened Wrappers
  import opened Sorting
  import opened CursorPager
  import opened DummyStatuses

  predicate UniquePkeys(d: seq<DummyStatus>)
  {
    forall i, j :: 0 <= i < j < |d| ==> d[i].pkey != d[j].pkey
  }

  /** The order every page is a window of: by the method's key, ties by ascending `Pkey`. */
  function Canonical(m: string, d: seq<DummyStatus>): (s: seq<DummyStatus>)
    ensures multiset(s) == multiset(d) && |s| == |d|
  {
    OrderNextSorted(m, d);
    MultisetLength(OrderNext(m, d), d);
    OrderNext(m, d)
  }

  // ---------------------------------------------------------------------------
  // The canonical order

  ghost predicate NoDup<T>(s: seq<T>)
  {
    forall i, j :: 0 <= i < j < |s| ==> s[i] != s[j]
  }

  lemma {:induction false} NoDupCount<T>(s: seq<T>, x: T)
    requires NoDup(s)
    ensures multiset(s)[x] <= 1
  {
    if s != [] {
      assert s == [s[0]] + s[1..];
      assert NoDup(s[1..]) by {
        forall i, j | 0 <= i < j < |s[1..]| ensures s[1..][i] != s[1..][j] {
          assert s[1..][i] == s[i + 1] && s[1..][j] == s[j + 1];
        }
      }
      NoDupCount(s[1..], x);
      if x == s[0] {
        forall k | 0 <= k < |s[1..]| ensures s[1..][k] != x {
          assert s[1..][k] == s[k + 1];
        }
      }
    }
  }

  lemma DupCount<T>(s: seq<T>, i: nat, j: nat)
    requires i < j < |s| && s[i] == s[j]
    ensures multiset(s)[s[i]] >= 2
  {
    assert s == s[..j] + s[j..];
    assert s[i] in s[..j] && s[j] in s[j..];
    assert multiset(s) == multiset(s[..j]) + multiset(s[j..]);
  }

  lemma PermutationNoDup<T>(s: seq<T>, t: seq<T>)
    requires NoDup(s) && multiset(s) == multiset(t)
    ensures NoDup(t)
  {
    forall i, j | 0 <= i < j < |t| ensures t[i] != t[j] {
      if t[i] == t[j] {
        DupCount(t, i, j);
        NoDupCount(s, t[i]);
        assert false;
      }
    }
  }

  /** Different rows of `d` have different `Pkey`s. */
  lemma PkeysDistinguish(d: seq<DummyStatus>, a: DummyStatus, b: DummyStatus)
    requires UniquePkeys(d) && a in d && b in d && a != b
    ensures a.pkey != b.pkey
  {
    var i :| 0 <= i < |d| && d[i] == a;
    var j :| 0 <= j < |d| && d[j] == b;
    if i < j {
      assert d[i].pkey != d[j].pkey;
    } else {
      assert d[j].pkey != d[i].pkey;
    }
  }

  /** The canonical order is a strict order on the rows: no two rows tie. */
  lemma CanonicalFacts(m: string, d: seq<DummyStatus>)
    requires UniquePkeys(d)
    ensures var s := Canonical(m, d);
      && multiset(s) == multiset(d) && |s| == |d|
      && StrictlySortedBy(RowOrder(m), s)
  {
    var s := Canonical(m, d);
    OrderNextSorted(m, d);
    MultisetLength(s, d);
    assert NoDup(d) by {
      forall i, j | 0 <= i < j < |d| ensures d[i] != d[j] {
        assert d[i].pkey != d[j].pkey;
      }
    }
    PermutationNoDup(d, s);
    forall a, b | a in s && b in s && a != b ensures RowOrder(m)(a, b) || RowOrder(m)(b, a) {
      InMultiset(a, s, d);
      InMultiset(b, s, d);
      PkeysDistinguish(d, a, b);
      RowOrderTotal(m, a, b);
    }
    Strictly(RowOrder(m), s);
  }

  /** Two orderings of the rows of `d` sorted by the same order built on `RowOrder` are equal. */
  lemma SameRows(lt: (DummyStatus, DummyStatus) -> bool, m: string, d: seq<DummyStatus>,
    s: seq<DummyStatus>, t: seq<DummyStatus>)
    requires UniquePkeys(d)
    requires lt == RowOrder(m) || lt == Flip(RowOrder(m))
    requires SortedBy(lt, s) && SortedBy(lt, t) && multiset(s) == multiset(t)
    requires forall x :: x in s ==> x in d
    ensures s == t
  {
    forall a, b | a in s && b in s && a != b ensures lt(a, b) || lt(b, a) {
      PkeysDistinguish(d, a, b);
      RowOrderTotal(m, a, b);
    }
    SortedUnique(lt, s, t);
  }

  lemma SortedSlice<T>(lt: (T, T) -> bool, s: seq<T>, a: nat, b: nat)
    requires SortedBy(lt, s) && a <= b <= |s|
    ensures SortedBy(lt, s[a..b])
  {
    forall i, j | 0 <= i < j < b - a ensures !lt(s[a..b][j], s[a..b][i]) {
      assert s[a..b][i] == s[a + i] && s[a..b][j] == s[a + j];
    }
  }

  // ---------------------------------------------------------------------------
  // The querier around a cursor row

  /** The first page is the start of the canonical order. */
  lemma QueryFirst(d: seq<DummyStatus>, m: string, limit: Count)
    requires Known(m)
    ensures RunQueryWithLimit(d, m, limit) == Success(Truncate(Canonical(m, d), limit))
  {
    var s := Canonical(m, d);
    if s != [] {
      assert s[0..] == s;
    }
  }

  lemma SuffixMultiset<T(!new)>(lt: (T, T) -> bool, p: T -> bool, s: seq<T>, d: seq<T>, j: nat)
    requires StrictWeakOrder(lt) && StrictlySortedBy(lt, s) && j < |s|
    requires multiset(s) == multiset(d)
    requires forall x :: p(x) == lt(s[j], x)
    ensures multiset(Filter(p, d)) == multiset(s[j + 1..])
  {
    FilterAfter(lt, p, s, j + 1, |s|);
    assert s[..|s|] == s;
    FilterPermutation(p, d, s);
  }

  /**
   * In a strict total order, a sorted arrangement of the rows after `s[j]`
   * is the suffix of `s` after `j`.
   */
  lemma SuffixUnique<T(!new)>(lt: (T, T) -> bool, p: T -> bool, s: seq<T>, d: seq<T>, t: seq<T>, j: nat)
    requires StrictWeakOrder(lt) && StrictlySortedBy(lt, s) && j < |s|
    requires multiset(s) == multiset(d)
    requires forall x :: p(x) == lt(s[j], x)
    requires SortedBy(lt, t) && multiset(t) == multiset(Filter(p, d))
    requires forall a, b :: a in d && b in d && a != b ==> lt(a, b) || lt(b, a)
    ensures t == s[j + 1..]
  {
    SuffixMultiset(lt, p, s, d, j);
    SortedSlice(lt, s, j + 1, |s|);
    forall a, b | a in t && b in t && a != b ensures lt(a, b) || lt(b, a) {
      InMultiset(a, t, Filter(p, d));
      InMultiset(b, t, Filter(p, d));
    }
    SortedUnique(lt, t, s[j + 1..]);
  }

  lemma PrefixMultiset<T(!new)>(lt: (T, T) -> bool, p: T -> bool, s: seq<T>, d: seq<T>, j: nat)
    requires StrictWeakOrder(lt) && StrictlySortedBy(lt, s) && j < |s|
    requires multiset(s) == multiset(d)
    requires forall x :: p(x) == lt(x, s[j])
    ensures multiset(Filter(p, d)) == multiset(s[..j])
  {
    FilterBefore(lt, p, s, j, |s|);
    assert s[..|s|] == s;
    FilterPermutation(p, d, s);
  }

  /**
   * In a strict total order, an arrangement of the rows before `s[j]` sorted
   * the other way round is the prefix of `s` before `j`, reversed.
   */
  lemma PrefixUnique<T(!new)>(lt: (T, T) -> bool, p: T -> bool, s: seq<T>, d: seq<T>, t: seq<T>, j: nat)
    requires StrictWeakOrder(lt) && StrictlySortedBy(lt, s) && j < |s|
    requires multiset(s) == multiset(d)
    requires forall x :: p(x) == lt(x, s[j])
    requires SortedBy(Flip(lt), t) && multiset(t) == multiset(Filter(p, d))
    requires forall a, b :: a in d && b in d && a != b ==> lt(a, b) || lt(b, a)
    ensures t == Reverse(s[..j])
  {
    PrefixMultiset(lt, p, s, d, j);
    SortedSlice(lt, s, 0, j);
    assert s[0..j] == s[..j];
    ReverseSorted(lt, s[..j]);
    ReverseMultiset(s[..j]);
    forall a, b | a in t && b in t && a != b ensures Flip(lt)(a, b) || Flip(lt)(b, a) {
      InMultiset(a, t, Filter(p, d));
      InMultiset(b, t, Filter(p, d));
    }
    SortedUnique(Flip(lt), t, Reverse(s[..j]));
  }

  /** With distinct `Pkey`s no two different rows tie in a method's order. */
  lemma RowOrderTotalOn(m: string, d: seq<DummyStatus>)
    requires UniquePkeys(d)
    ensures forall a, b :: a in d && b in d && a != b ==> RowOrder(m)(a, b) || RowOrder(m)(b, a)
  {
    forall a, b | a in d && b in d && a != b ensures RowOrder(m)(a, b) || RowOrder(m)(b, a) {
      PkeysDistinguish(d, a, b);
      RowOrderTotal(m, a, b);
    }
  }

  /** The rows after canonical row `j`, sorted the `next` way, are the canonical rows after it. */
  lemma SortAfter(m: string, d: seq<DummyStatus>, j: nat, f: DummyStatus -> bool)
    requires UniquePkeys(d) && j < |d|
    requires forall x :: f(x) == RowOrder(m)(Canonical(m, d)[j], x)
    ensures OrderNext(m, Filter(f, d)) == Canonical(m, d)[j + 1..]
  {
    CanonicalFacts(m, d);
    RowOrderIsOrder(m);
    RowOrderTotalOn(m, d);
    OrderNextSorted(m, Filter(f, d));
    SuffixUnique(RowOrder(m), f, Canonical(m, d), d, OrderNext(m, Filter(f, d)), j);
  }

  /** The rows before canonical row `j`, sorted the `prev` way, are the canonical rows before it, nearest first. */
  lemma SortBefore(m: string, d: seq<DummyStatus>, j: nat, f: DummyStatus -> bool)
    requires UniquePkeys(d) && j < |d|
    requires forall x :: f(x) == RowOrder(m)(x, Canonical(m, d)[j])
    ensures OrderPrev(m, Filter(f, d)) == Reverse(Canonical(m, d)[..j])
  {
    CanonicalFacts(m, d);
    RowOrderIsOrder(m);
    RowOrderTotalOn(m, d);
    OrderPrevSorted(m, Filter(f, d));
    PrefixUnique(RowOrder(m), f, Canonical(m, d), d, OrderPrev(m, Filter(f, d)), j);
  }

  /** The querier's filter for a cursor made from row `c`. */
  function CursorFilter(m: string, dir: string, c: DummyStatus): DummyStatus -> bool
  {
    var key := GetCursorKeyName(m);
    var sel := CursorIDAndValueSelector(key, c);
    var p := ParseCursorParams(key, sel.0, sel.1);
    KeepFn(m, dir, p.cursor, p.nameCur, p.ageCur, p.lastLoginCur)
  }

  lemma CursorFilterAround(m: string, c: DummyStatus)
    requires Known(m)
    ensures forall x :: CursorFilter(m, "next", c)(x) == RowOrder(m)(c, x)
    ensures forall x :: CursorFilter(m, "prev", c)(x) == RowOrder(m)(x, c)
  {
    forall x ensures CursorFilter(m, "next", c)(x) == RowOrder(m)(c, x)
      && CursorFilter(m, "prev", c)(x) == RowOrder(m)(x, c)
    {
      KeepAroundCursor(m, c, x);
    }
  }

  /** What the querier returns for a cursor made from row `c`. */
  lemma QueryAround(d: seq<DummyStatus>, m: string, c: DummyStatus, limit: Count, dir: string)
    requires dir == "next" || dir == "prev"
    ensures var key := GetCursorKeyName(m);
      var sel := CursorIDAndValueSelector(key, c);
      var f := Filter(CursorFilter(m, dir, c), d);
      RunQueryWithCursorParams(d, key, m, limit, dir, sel.0, sel.1)
        == Success(Truncate(if dir == "next" then OrderNext(m, f) else OrderPrev(m, f), limit))
  {
  }

  /** `next` from the canonical row `j` gives the rows after it, in canonical order. */
  lemma QueryAfter(d: seq<DummyStatus>, m: string, j: nat, limit: Count)
    requires Known(m) && UniquePkeys(d) && j < |d|
    ensures var s := Canonical(m, d);
      var key := GetCursorKeyName(m);
      var sel := CursorIDAndValueSelector(key, s[j]);
      RunQueryWithCursorParams(d, key, m, limit, "next", sel.0, sel.1) == Success(Truncate(s[j + 1..], limit))
  {
    var s := Canonical(m, d);
    CanonicalFacts(m, d);
    CursorFilterAround(m, s[j]);
    SortAfter(m, d, j, CursorFilter(m, "next", s[j]));
    QueryAround(d, m, s[j], limit, "next");
  }

  /** `prev` from the canonical row `j` gives the rows before it, nearest first. */
  lemma QueryBefore(d: seq<DummyStatus>, m: string, j: nat, limit: Count)
    requires Known(m) && UniquePkeys(d) && j < |d|
    ensures var s := Canonical(m, d);
      var key := GetCursorKeyName(m);
      var sel := CursorIDAndValueSelector(key, s[j]);
      RunQueryWithCursorParams(d, key, m, limit, "prev", sel.0, sel.1) == Success(Truncate(Reverse(s[..j]), limit))
  {
    var s := Canonical(m, d);
    CanonicalFacts(m, d);
    CursorFilterAround(m, s[j]);
    SortBefore(m, d, j, CursorFilter(m, "prev", s[j]));
    QueryAround(d, m, s[j], limit, "prev");
  }

  /** With no rows, every call ends in `ErrDataNoRecord`, whatever the token. */
  lemma EmptyRows(m: string, token: string, limit: int)
    requires 1 <= limit < MaxInt32
    ensures CursorDataOutcome(NewCursorQuerier([]), token, OrderFor(m), limit) == ([], NoPages, Some(ErrDataNoRecord))
  {
    var q := NewCursorQuerier([]);
    var req := ClassifyRequest(token, OrderFor(m).cursorKeyName);
    assert Fetch(q, OrderFor(m), limit, req) == Success([]);
    OutcomeCases(q, token, OrderFor(m), limit);
  }
}
