/**
 * The in-memory reference querier of pagination_test.go: the `DummyStatus`
 * row, its order methods and cursor keys, the keyset filter, sort and limit of
 * `RetrieveWithCursor`, the numbered retrieval of `RetrieveWithNumbered`, and
 * the `cursorQuerier` adapter that plugs both into `GetCursorData`.
 *
 * A `time.Time` is stood in for by an integer instant: `Before`, `After` and
 * `Equal` become `<`, `>` and `==`, and the selector hands the instant out as
 * a JSON number where the test hands out an RFC 3339 string.
 */
module DummyStatuses {
  import opened Wrappers
  import opened Json
  import opened Sorting
  import CursorPager

  type Int32 = x: int | -0x8000_0000 <= x <= 0x7FFF_FFFF

  datatype DummyStatus = DummyStatus(
    pkey: Int32, uuid: string, name: string, age: int, lastLogin: int, isActive: bool)

  // The order methods (`DummyStatusOrderMethod` values).
  const Default := "default"
  const Name := "name"
  const ReverseName := "r_name"
  const LastLogin := "last_login"
  const ReverseLastLogin := "r_last_login"
  const Age := "age"
  const ReverseAge := "r_age"

  // The cursor key names.
  const DefaultCursorKey := "default"
  const NameCursorKey := "name"
  const LastLoginCursorKey := "last_login"
  const AgeCursorKey := "age"

  /** The six methods that order by a field before `Pkey`. */
  predicate HasKey(m: string)
  {
    m == Name || m == ReverseName || m == LastLogin || m == ReverseLastLogin || m == Age || m == ReverseAge
  }

  predicate Known(m: string)
  {
    m == Default || HasKey(m)
  }

  /** The empty string and unknown names parse as the default method; a known name parses as itself. */
  function ParseDummyStatusOrderMethod(v: string): (m: string)
    ensures Known(m)
    ensures Known(v) ==> m == v
    ensures !Known(v) ==> m == Default
  {
    if v == "" then Default
    else if v == Default then Default
    else if v == Name then Name
    else if v == ReverseName then ReverseName
    else if v == LastLogin then LastLogin
    else if v == ReverseLastLogin then ReverseLastLogin
    else if v == Age then Age
    else if v == ReverseAge then ReverseAge
    else Default
  }

  /** A method and its reverse share a key; anything unknown uses the default key. */
  function GetCursorKeyName(m: string): (k: string)
    ensures k == DefaultCursorKey || k == NameCursorKey || k == LastLoginCursorKey || k == AgeCursorKey
    ensures !HasKey(m) ==> k == DefaultCursorKey
  {
    if m == Default then DefaultCursorKey
    else if m == Name then NameCursorKey
    else if m == ReverseName then NameCursorKey
    else if m == LastLogin then LastLoginCursorKey
    else if m == ReverseLastLogin then LastLoginCursorKey
    else if m == Age then AgeCursorKey
    else if m == ReverseAge then AgeCursorKey
    else DefaultCursorKey
  }

  /** Parsing is idempotent and never changes which cursor key a name stands for. */
  lemma ParseKeepsKey(v: string)
    ensures ParseDummyStatusOrderMethod(ParseDummyStatusOrderMethod(v)) == ParseDummyStatusOrderMethod(v)
    ensures GetCursorKeyName(ParseDummyStatusOrderMethod(v)) == GetCursorKeyName(v)
  {
  }

  /** Each keyed order and its `r_` reverse use the same key, which is the order's own name. */
  lemma ReverseSharesKey(m: string)
    requires m == Name || m == LastLogin || m == Age
    ensures GetCursorKeyName("r_" + m) == GetCursorKeyName(m) == m
  {
  }

  // ---------------------------------------------------------------------------
  // Orders

  /** Go's `<` on strings: lexicographic by code point, which is the order of their UTF-8 bytes. */
  predicate StrLess(a: string, b: string)
    decreases |a|
  {
    if a == [] then b != []
    else if b == [] then false
    else a[0] < b[0] || (a[0] == b[0] && StrLess(a[1..], b[1..]))
  }

  lemma {:induction false} StrLessIrreflexive(a: string)
    ensures !StrLess(a, a)
    decreases |a|
  {
    if a != [] {
      StrLessIrreflexive(a[1..]);
    }
  }

  lemma {:induction false} StrLessTransitive(a: string, b: string, c: string)
    requires StrLess(a, b) && StrLess(b, c)
    ensures StrLess(a, c)
    decreases |a|
  {
    if a != [] && b != [] && c != [] && a[0] == b[0] == c[0] {
      StrLessTransitive(a[1..], b[1..], c[1..]);
    }
  }

  lemma {:induction false} StrLessTotal(a: string, b: string)
    ensures a == b || StrLess(a, b) || StrLess(b, a)
    decreases |a|
  {
    if a != [] && b != [] && a[0] == b[0] {
      StrLessTotal(a[1..], b[1..]);
      if a[1..] == b[1..] {
        assert a == [a[0]] + a[1..] && b == [b[0]] + b[1..];
      }
    }
  }

  /** The comparison the method sorts by in the `next` direction; nothing for the default method. */
  function KeyLess(m: string): (DummyStatus, DummyStatus) -> bool
  {
    if m == Name then (a: DummyStatus, b: DummyStatus) => StrLess(a.name, b.name)
    else if m == ReverseName then (a: DummyStatus, b: DummyStatus) => StrLess(b.name, a.name)
    else if m == LastLogin then (a: DummyStatus, b: DummyStatus) => a.lastLogin < b.lastLogin
    else if m == ReverseLastLogin then (a: DummyStatus, b: DummyStatus) => a.lastLogin > b.lastLogin
    else if m == Age then (a: DummyStatus, b: DummyStatus) => a.age < b.age
    else if m == ReverseAge then (a: DummyStatus, b: DummyStatus) => a.age > b.age
    else (a: DummyStatus, b: DummyStatus) => false
  }

  function ByPkey(): (DummyStatus, DummyStatus) -> bool
  {
    (a: DummyStatus, b: DummyStatus) => a.pkey < b.pkey
  }

  /** The canonical order of a method: its key, then ascending `Pkey`. */
  function RowOrder(m: string): (DummyStatus, DummyStatus) -> bool
  {
    Then(KeyLess(m), ByPkey())
  }

  lemma KeyLessOrder(m: string)
    ensures StrictWeakOrder(KeyLess(m))
  {
    if m == Name || m == ReverseName {
      forall a: string {
        StrLessIrreflexive(a);
      }
      forall a: string, b: string, c: string | StrLess(a, b) && StrLess(b, c) ensures StrLess(a, c) {
        StrLessTransitive(a, b, c);
      }
      forall a: string, b: string, c: string | StrLess(a, c) ensures StrLess(a, b) || StrLess(b, c) {
        StrLessTotal(a, b);
        StrLessTotal(b, c);
        if StrLess(b, a) && StrLess(c, b) {
          StrLessTransitive(c, b, a);
          StrLessTransitive(a, c, a);
          StrLessIrreflexive(a);
        }
      }
    }
  }

  lemma ByPkeyOrder()
    ensures StrictWeakOrder(ByPkey())
  {
  }

  lemma RowOrderIsOrder(m: string)
    ensures StrictWeakOrder(RowOrder(m))
  {
    KeyLessOrder(m);
    ByPkeyOrder();
    ThenOrder(KeyLess(m), ByPkey());
  }

  /** Rows with different keys are always ordered one way or the other. */
  lemma RowOrderTotal(m: string, a: DummyStatus, b: DummyStatus)
    requires a.pkey != b.pkey
    ensures RowOrder(m)(a, b) || RowOrder(m)(b, a)
  {
  }

  // ---------------------------------------------------------------------------
  // RetrieveWithCursor

  /**
   * The `where` clause of `RetrieveWithCursor` for one row `v`, as the two
   * switches write it; an unknown direction or method keeps nothing.
   */
  predicate Keep(m: string, dir: string, cursor: int, nameCur: string, ageCur: int, lastLoginCur: int, v: DummyStatus)
  {
    if dir == "next" then
      if m == Name then StrLess(nameCur, v.name) || (v.name == nameCur && v.pkey > cursor)
      else if m == ReverseName then StrLess(v.name, nameCur) || (v.name == nameCur && v.pkey > cursor)
      else if m == LastLogin then v.lastLogin > lastLoginCur || (v.lastLogin == lastLoginCur && v.pkey > cursor)
      else if m == ReverseLastLogin then v.lastLogin < lastLoginCur || (v.lastLogin == lastLoginCur && v.pkey > cursor)
      else if m == Age then v.age > ageCur || (v.age == ageCur && v.pkey > cursor)
      else if m == ReverseAge then v.age < ageCur || (v.age == ageCur && v.pkey > cursor)
      else if m == Default then v.pkey > cursor
      else false
    else if dir == "prev" then
      if m == Name then StrLess(v.name, nameCur) || (v.name == nameCur && v.pkey < cursor)
      else if m == ReverseName then StrLess(nameCur, v.name) || (v.name == nameCur && v.pkey < cursor)
      else if m == LastLogin then v.lastLogin < lastLoginCur || (v.lastLogin == lastLoginCur && v.pkey < cursor)
      else if m == ReverseLastLogin then v.lastLogin > lastLoginCur || (v.lastLogin == lastLoginCur && v.pkey < cursor)
      else if m == Age then v.age < ageCur || (v.age == ageCur && v.pkey < cursor)
      else if m == ReverseAge then v.age > ageCur || (v.age == ageCur && v.pkey < cursor)
      else if m == Default then v.pkey < cursor
      else false
    else false
  }

  function KeepFn(m: string, dir: string, cursor: int, nameCur: string, ageCur: int, lastLoginCur: int)
    : DummyStatus -> bool
  {
    v => Keep(m, dir, cursor, nameCur, ageCur, lastLoginCur, v)
  }

  /** The `next` ordering: a stable sort by `Pkey`, then a stable sort by the method's key. */
  function OrderNext(m: string, f: seq<DummyStatus>): seq<DummyStatus>
  {
    var byPkey := Sort(ByPkey(), f);
    if HasKey(m) then Sort(KeyLess(m), byPkey) else byPkey
  }

  /** The `prev` ordering: both sorts reversed. */
  function OrderPrev(m: string, f: seq<DummyStatus>): seq<DummyStatus>
  {
    var byPkey := Sort(Flip(ByPkey()), f);
    if HasKey(m) then Sort(Flip(KeyLess(m)), byPkey) else byPkey
  }

  /** `LIMIT`: the first `limit` elements, or all of them when there are fewer. */
  function Truncate<T>(s: seq<T>, limit: nat): (r: seq<T>)
  {
    if limit < |s| then s[..limit] else s
  }

  /** What `RetrieveWithCursor` returns: filter, order by direction, limit. */
  function CursorQuery(d: seq<DummyStatus>, m: string, cursor: int, limit: nat, dir: string,
    nameCur: string, ageCur: int, lastLoginCur: int): seq<DummyStatus>
  {
    var filtered := Filter(KeepFn(m, dir, cursor, nameCur, ageCur, lastLoginCur), d);
    var sorted := if dir == "next" then OrderNext(m, filtered)
      else if dir == "prev" then OrderPrev(m, filtered)
      else filtered;
    Truncate(sorted, limit)
  }

  /**
   * `RetrieveWithCursor` step by step: copy the rows, append each kept row to
   * `filtered`, sort it in place twice, truncate. The input is a value and is
   * not changed.
   */
  method RetrieveWithCursor(d: seq<DummyStatus>, m: string, cursor: int, limit: nat, curDir: string,
    nameCur: string, ageCur: int, lastLoginCur: int)
    returns (result: seq<DummyStatus>)
    ensures result == CursorQuery(d, m, cursor, limit, curDir, nameCur, ageCur, lastLoginCur)
  {
    var rows := d;
    var filtered: seq<DummyStatus> := [];
    for i := 0 to |rows|
      invariant filtered == Filter(KeepFn(m, curDir, cursor, nameCur, ageCur, lastLoginCur), rows[..i])
    {
      var v := rows[i];
      assert rows[..i + 1][..i] == rows[..i];
      if Keep(m, curDir, cursor, nameCur, ageCur, lastLoginCur, v) {
        filtered := filtered + [v];
      }
    }
    assert rows[..|rows|] == d;
    if curDir == "next" {
      filtered := Sort(ByPkey(), filtered);
      if HasKey(m) {
        filtered := Sort(KeyLess(m), filtered);
      }
    } else if curDir == "prev" {
      filtered := Sort(Flip(ByPkey()), filtered);
      if HasKey(m) {
        filtered := Sort(Flip(KeyLess(m)), filtered);
      }
    }
    if limit < |filtered| {
      filtered := filtered[..limit];
    }
    result := filtered;
  }

  /** The `next` ordering sorts by the method's key with ties in ascending `Pkey`, and drops nothing. */
  lemma OrderNextSorted(m: string, f: seq<DummyStatus>)
    ensures SortedBy(RowOrder(m), OrderNext(m, f))
    ensures multiset(OrderNext(m, f)) == multiset(f)
  {
    ByPkeyOrder();
    SortSorted(ByPkey(), f);
    var byPkey := Sort(ByPkey(), f);
    if HasKey(m) {
      KeyLessOrder(m);
      SortThen(KeyLess(m), ByPkey(), byPkey);
    } else {
      SortedBySame(ByPkey(), RowOrder(m), byPkey);
    }
  }

  /** The `prev` ordering is the exact reverse: key reversed, ties in descending `Pkey`. */
  lemma OrderPrevSorted(m: string, f: seq<DummyStatus>)
    ensures SortedBy(Flip(RowOrder(m)), OrderPrev(m, f))
    ensures multiset(OrderPrev(m, f)) == multiset(f)
  {
    ByPkeyOrder();
    FlipOrder(ByPkey());
    SortSorted(Flip(ByPkey()), f);
    var byPkey := Sort(Flip(ByPkey()), f);
    if HasKey(m) {
      KeyLessOrder(m);
      FlipOrder(KeyLess(m));
      SortThen(Flip(KeyLess(m)), Flip(ByPkey()), byPkey);
      SortedBySame(Then(Flip(KeyLess(m)), Flip(ByPkey())), Flip(RowOrder(m)), Sort(Flip(KeyLess(m)), byPkey));
    } else {
      SortedBySame(Flip(ByPkey()), Flip(RowOrder(m)), byPkey);
    }
  }

  /**
   * The result is a prefix, at most `limit` long, of the kept rows in the
   * direction's order; every row in it is a row of `d` that the filter keeps.
   */
  lemma CursorQueryShape(d: seq<DummyStatus>, m: string, cursor: int, limit: nat, dir: string,
    nameCur: string, ageCur: int, lastLoginCur: int)
    requires dir == "next" || dir == "prev"
    ensures var r := CursorQuery(d, m, cursor, limit, dir, nameCur, ageCur, lastLoginCur);
      var filtered := Filter(KeepFn(m, dir, cursor, nameCur, ageCur, lastLoginCur), d);
      var sorted := if dir == "next" then OrderNext(m, filtered) else OrderPrev(m, filtered);
      && |r| == (if limit < |filtered| then limit else |filtered|)
      && r == sorted[..|r|]
      && (dir == "next" ==> SortedBy(RowOrder(m), r))
      && (dir == "prev" ==> SortedBy(Flip(RowOrder(m)), r))
      && (forall x :: x in r ==> x in d && Keep(m, dir, cursor, nameCur, ageCur, lastLoginCur, x))
  {
    var filtered := Filter(KeepFn(m, dir, cursor, nameCur, ageCur, lastLoginCur), d);
    var sorted := if dir == "next" then OrderNext(m, filtered) else OrderPrev(m, filtered);
    if dir == "next" {
      OrderNextSorted(m, filtered);
    } else {
      OrderPrevSorted(m, filtered);
    }
    MultisetLength(sorted, filtered);
    var r := Truncate(sorted, limit);
    forall x | x in r ensures x in d && Keep(m, dir, cursor, nameCur, ageCur, lastLoginCur, x) {
      assert x in sorted;
      InMultiset(x, sorted, filtered);
    }
  }

  // ---------------------------------------------------------------------------
  // RetrieveWithNumbered

  /** `RetrieveWithNumbered`'s ordering as written: a keyed method sorts by its key alone. */
  function NumberedOrderAsWritten(m: string, d: seq<DummyStatus>): seq<DummyStatus>
  {
    if HasKey(m) then Sort(KeyLess(m), d)
    else if m == Default then Sort(ByPkey(), d)
    else d
  }

  /** The ordering with ties by `Pkey`, as `RetrieveWithCursor` orders. */
  function NumberedOrder(m: string, d: seq<DummyStatus>): seq<DummyStatus>
  {
    if Known(m) then OrderNext(m, d) else d
  }

  /** Drop `offset` rows only when there are more than that, then keep `limit`. */
  function Page<T>(s: seq<T>, limit: nat, offset: nat): seq<T>
  {
    Truncate(if offset < |s| then s[offset..] else s, limit)
  }

  function NumberedQueryAsWritten(d: seq<DummyStatus>, m: string, limit: nat, offset: nat): seq<DummyStatus>
  {
    Page(NumberedOrderAsWritten(m, d), limit, offset)
  }

  function NumberedQuery(d: seq<DummyStatus>, m: string, limit: nat, offset: nat): seq<DummyStatus>
  {
    Page(NumberedOrder(m, d), limit, offset)
  }

  /** `RetrieveWithNumbered` step by step: copy, sort in place, reslice. */
  method RetrieveWithNumbered(d: seq<DummyStatus>, m: string, limit: nat, offset: nat)
    returns (result: seq<DummyStatus>)
    ensures result == NumberedQueryAsWritten(d, m, limit, offset)
  {
    result := d;
    if HasKey(m) {
      result := Sort(KeyLess(m), result);
    } else if m == Default {
      result := Sort(ByPkey(), result);
    }
    if offset < |result| {
      result := result[offset..];
    }
    if limit < |result| {
      result := result[..limit];
    }
  }

  /**
   * Paging: the rows after the first `offset` when there are more than
   * `offset`, and otherwise the rows from the start; never more than `limit`.
   */
  lemma PageWindow<T>(s: seq<T>, limit: nat, offset: nat)
    ensures var r := Page(s, limit, offset);
      var start := if offset < |s| then offset else 0;
      && start + |r| <= |s|
      && |r| == (if limit < |s| - start then limit else |s| - start)
      && r == s[start..start + |r|]
  {
  }

  /** For input already in `Pkey` order, the numbered ordering as written agrees with the corrected one. */
  lemma NumberedAgrees(d: seq<DummyStatus>, m: string, limit: nat, offset: nat)
    requires SortedBy(ByPkey(), d)
    ensures NumberedQueryAsWritten(d, m, limit, offset) == NumberedQuery(d, m, limit, offset)
  {
    SortIdentity(ByPkey(), d);
  }

  /**
   * As written, the first age-ordered page of rows (pkey 2, age 20), (pkey 1,
   * age 20) shows pkey 2 first, yet pkey 1 comes first in the order the cursor
   * filter resumes by, and the `next` query after pkey 2 no longer returns it.
   */
  lemma NumberedOrderSkipsRow()
    ensures var r2 := DummyStatus(2, "", "", 20, 0, false);
      var r1 := DummyStatus(1, "", "", 20, 0, false);
      && NumberedQueryAsWritten([r2, r1], Age, 2, 0) == [r2, r1]
      && NumberedQuery([r2, r1], Age, 2, 0) == [r1, r2]
      && RowOrder(Age)(r1, r2)
      && CursorQuery([r2, r1], Age, 2, 2, "next", "", 20, 0) == []
  {
    var r2 := DummyStatus(2, "", "", 20, 0, false);
    var r1 := DummyStatus(1, "", "", 20, 0, false);
    assert [r2, r1][..1] == [r2];
    assert Sort(KeyLess(Age), [r2]) == [r2];
    assert Sort(KeyLess(Age), [r2, r1]) == [r2, r1];
    assert Sort(ByPkey(), [r2]) == [r2];
    assert Sort(ByPkey(), [r2, r1]) == [r1, r2];
    assert [r1, r2][..1] == [r1];
    assert Sort(KeyLess(Age), [r1]) == [r1];
    assert Sort(KeyLess(Age), [r1, r2]) == [r1, r2];
    var p := KeepFn(Age, "next", 2, "", 20, 0);
    assert Filter(p, [r2]) == [] by {
      assert [r2][..0] == [];
    }
    assert Filter(p, [r2, r1]) == [];
  }

  // ---------------------------------------------------------------------------
  // The cursorQuerier adapter

  datatype CursorParams = CursorParams(cursor: int, nameCur: string, ageCur: int, lastLoginCur: int)

  /**
   * How `RunQueryWithCursorParamsFunc` of pagination_test.go reads its `any`
   * arguments: the id must be a number, the value must have the type the key
   * calls for, and anything else falls back to the zero value.
   */
  function ParseCursorParams(subCursor: string, cursor: JsonValue, value: JsonValue): (r: CursorParams)
    ensures r.cursor == (if cursor.JNumber? then cursor.n else 0)
    ensures r.nameCur == (if subCursor == NameCursorKey && value.JString? then value.s else "")
    ensures r.ageCur == (if subCursor == AgeCursorKey && value.JNumber? then value.n else 0)
    ensures r.lastLoginCur == (if subCursor == LastLoginCursorKey && value.JNumber? then value.n else 0)
  {
    var cur := if cursor.JNumber? then cursor.n else 0;
    if subCursor == NameCursorKey then CursorParams(cur, if value.JString? then value.s else "", 0, 0)
    else if subCursor == AgeCursorKey then CursorParams(cur, "", if value.JNumber? then value.n else 0, 0)
    else if subCursor == LastLoginCursorKey then CursorParams(cur, "", 0, if value.JNumber? then value.n else 0)
    else CursorParams(cur, "", 0, 0)
  }

  /** The id is always the row's `Pkey`; the value is the field the key names, or null. */
  function CursorIDAndValueSelector(subCursor: string, e: DummyStatus): (r: (JsonValue, JsonValue))
    ensures r.0 == JNumber(e.pkey)
    ensures subCursor == NameCursorKey ==> r.1 == JString(e.name)
    ensures subCursor == AgeCursorKey ==> r.1 == JNumber(e.age)
    ensures subCursor == LastLoginCursorKey ==> r.1 == JNumber(e.lastLogin)
    ensures subCursor != NameCursorKey && subCursor != AgeCursorKey && subCursor != LastLoginCursorKey
      ==> r.1 == JNull
  {
    if subCursor == DefaultCursorKey then (JNumber(e.pkey), JNull)
    else if subCursor == NameCursorKey then (JNumber(e.pkey), JString(e.name))
    else if subCursor == AgeCursorKey then (JNumber(e.pkey), JNumber(e.age))
    else if subCursor == LastLoginCursorKey then (JNumber(e.pkey), JNumber(e.lastLogin))
    else (JNumber(e.pkey), JNull)
  }

  /** Reading back what the selector gives for row `e` recovers its `Pkey` and the field the key names. */
  lemma SelectorParams(key: string, e: DummyStatus)
    ensures var sel := CursorIDAndValueSelector(key, e);
      var p := ParseCursorParams(key, sel.0, sel.1);
      && p.cursor == e.pkey
      && p.nameCur == (if key == NameCursorKey then e.name else "")
      && p.ageCur == (if key == AgeCursorKey then e.age else 0)
      && p.lastLoginCur == (if key == LastLoginCursorKey then e.lastLogin else 0)
  {
  }

  /**
   * The querier's cursor query never fails; it returns at most `limit` rows
   * of `d`, each kept by the filter for the parameters read back, and none
   * for a direction other than "next" and "prev".
   */
  function RunQueryWithCursorParams(d: seq<DummyStatus>, subCursor: string, orderMethod: string,
    limit: CursorPager.Count, cursorDir: string, cursor: JsonValue, value: JsonValue)
    : (r: Result<seq<DummyStatus>, string>)
    ensures r.Success?
    ensures |r.value| <= limit
    ensures var p := ParseCursorParams(subCursor, cursor, value);
      forall x :: x in r.value ==> x in d && Keep(orderMethod, cursorDir, p.cursor, p.nameCur, p.ageCur, p.lastLoginCur, x)
    ensures cursorDir != "next" && cursorDir != "prev" ==> r.value == []
  {
    var p := ParseCursorParams(subCursor, cursor, value);
    var rows := CursorQuery(d, orderMethod, p.cursor, limit, cursorDir, p.nameCur, p.ageCur, p.lastLoginCur);
    if cursorDir == "next" || cursorDir == "prev" then
      CursorQueryShape(d, orderMethod, p.cursor, limit, cursorDir, p.nameCur, p.ageCur, p.lastLoginCur);
      Success(rows)
    else
      FilterNone(KeepFn(orderMethod, cursorDir, p.cursor, p.nameCur, p.ageCur, p.lastLoginCur), d);
      Success(rows)
  }

  /** A filter that keeps nothing gives nothing. */
  lemma {:induction false} FilterNone<T>(p: T -> bool, s: seq<T>)
    requires forall x :: !p(x)
    ensures Filter(p, s) == []
    decreases |s|
  {
    if s != [] {
      FilterNone(p, s[..|s| - 1]);
    }
  }

  /**
   * The first page, with the ordering corrected to break ties by `Pkey` (see
   * `NumberedOrderSkipsRow`): it never fails, and it is the first
   * min(`limit`, |`d`|) rows of `NumberedOrder`, which for a known method is
   * sorted by the method's key with ties in ascending `Pkey`.
   */
  function RunQueryWithLimit(d: seq<DummyStatus>, orderMethod: string, limit: CursorPager.Count)
    : (r: Result<seq<DummyStatus>, string>)
    ensures r.Success?
    ensures |r.value| == (if limit < |d| then limit else |d|)
    ensures |r.value| <= |NumberedOrder(orderMethod, d)| && r.value == NumberedOrder(orderMethod, d)[..|r.value|]
    ensures Known(orderMethod) ==> SortedBy(RowOrder(orderMethod), r.value)
    ensures !Known(orderMethod) ==> r.value == Truncate(d, limit)
  {
    var s := NumberedOrder(orderMethod, d);
    if Known(orderMethod) then
      OrderNextSorted(orderMethod, d);
      MultisetLength(s, d);
      PageWindow(s, limit, 0);
      Success(NumberedQuery(d, orderMethod, limit, 0))
    else
      PageWindow(s, limit, 0);
      Success(NumberedQuery(d, orderMethod, limit, 0))
  }

  /**
   * The test's querier: it never reports an error, and the cursor id it
   * selects for a row is the row's `Pkey`.
   */
  function NewCursorQuerier(d: seq<DummyStatus>): (q: CursorPager.Querier<DummyStatus>)
    ensures forall sub, om, limit, dir, cur, v :: q.runQueryWithCursorParams(sub, om, limit, dir, cur, v).Success?
    ensures forall om, limit :: q.runQueryWithLimit(om, limit).Success?
    ensures forall sub, e :: q.cursorIdAndValueSelector(sub, e).0 == JNumber(e.pkey)
  {
    CursorPager.Querier(
      (sub: string, om: string, limit: CursorPager.Count, dir: string, cur: JsonValue, v: JsonValue) =>
        RunQueryWithCursorParams(d, sub, om, limit, dir, cur, v),
      (om: string, limit: CursorPager.Count) => RunQueryWithLimit(d, om, limit),
      (sub: string, e: DummyStatus) => CursorIDAndValueSelector(sub, e))
  }

  /**
   * The querier as the test writes it, first pages sorted by the key alone;
   * it differs from `NewCursorQuerier` only in its first pages.
   */
  function NewCursorQuerierAsWritten(d: seq<DummyStatus>): (q: CursorPager.Querier<DummyStatus>)
    ensures q.runQueryWithCursorParams == NewCursorQuerier(d).runQueryWithCursorParams
    ensures q.cursorIdAndValueSelector == NewCursorQuerier(d).cursorIdAndValueSelector
    ensures forall om, limit: CursorPager.Count :: q.runQueryWithLimit(om, limit) == Success(NumberedQueryAsWritten(d, om, limit, 0))
  {
    NewCursorQuerier(d).(runQueryWithLimit :=
      (om: string, limit: CursorPager.Count) => Success(NumberedQueryAsWritten(d, om, limit, 0)))
  }

  /**
   * The `OrderMethod` a `DummyStatusOrderMethod` is passed to `GetCursorData`
   * as: its string value is its name, and its cursor key is the key of that name.
   */
  function OrderFor(m: string): (o: CursorPager.OrderMethod)
    ensures o.stringValue == m
    ensures o.cursorKeyName == GetCursorKeyName(o.stringValue)
  {
    CursorPager.OrderMethod(GetCursorKeyName(m), m)
  }

  /**
   * A cursor made from row `c`, read back by the querier, keeps in the `next`
   * direction exactly the rows after `c` in the method's canonical order, and
   * in the `prev` direction exactly the rows before it.
   */
  lemma KeepAroundCursor(m: string, c: DummyStatus, v: DummyStatus)
    requires Known(m)
    ensures var key := GetCursorKeyName(m);
      var sel := CursorIDAndValueSelector(key, c);
      var p := ParseCursorParams(key, sel.0, sel.1);
      && Keep(m, "next", p.cursor, p.nameCur, p.ageCur, p.lastLoginCur, v) == RowOrder(m)(c, v)
      && Keep(m, "prev", p.cursor, p.nameCur, p.ageCur, p.lastLoginCur, v) == RowOrder(m)(v, c)
  {
    if m == Name || m == ReverseName {
      StrLessTotal(c.name, v.name);
      StrLessIrreflexive(c.name);
    }
  }
}
