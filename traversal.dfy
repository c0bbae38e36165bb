/**
 * The traversal `TestGetCursorData` drives: repeated `GetCursorData` calls,
 * each following the page's next or previous token, optionally corrupted by
 * appending "invalid".
 *
 * A run is stated over a `Pager`: one call per token, what a token asks for,
 * and the token a page hands out for a row. `PagerSound` shows that the pager
 * of a querier serving a sequence `s` the way the reference querier serves
 * its canonical order (`Serves`) has the property `Sound`: every call with a
 * token standing for a position in `s` returns the page at that position.
 * From that alone a whole run is a walk over positions (`Walk`), and
 * following next tokens from the empty token shows every element of `s`
 * once, in order, and then starts over at the first page.
 */
module Traversal {
  import opened Wrappers
  import opened Sorting
  import opened CursorPager
  import opened DummyStatuses
  import opened ReferenceQuerier

  datatype CurDir = Next | Prev

  /**
   * `q` answers like a store holding `s` in order: a first page is the start
   * of `s`, and a cursor made from `s[j]` gives the elements after it (`next`)
   * or the elements before it, nearest first (`prev`).
   */
  ghost predicate Serves<T>(q: Querier<T>, order: OrderMethod, s: seq<T>)
  {
    var key := order.cursorKeyName;
    && (forall limit: Count :: q.runQueryWithLimit(order.stringValue, limit) == Success(Truncate(s, limit)))
    && (forall limit: Count, j :: 0 <= j < |s| ==>
          q.runQueryWithCursorParams(key, order.stringValue, limit, "next", Edge(q, key, s[j]).id, Edge(q, key, s[j]).value)
            == Success(Truncate(s[j + 1..], limit)))
    && (forall limit: Count, j :: 0 <= j < |s| ==>
          q.runQueryWithCursorParams(key, order.stringValue, limit, "prev", Edge(q, key, s[j]).id, Edge(q, key, s[j]).value)
            == Success(Truncate(Reverse(s[..j]), limit)))
  }

  /** The reference querier serves the canonical order of its rows. */
  lemma ReferenceServes(d: seq<DummyStatus>, m: string)
    requires Known(m) && UniquePkeys(d)
    ensures Serves(NewCursorQuerier(d), OrderFor(m), Canonical(m, d))
  {
    var q := NewCursorQuerier(d);
    var s := Canonical(m, d);
    var key := GetCursorKeyName(m);
    forall limit: Count ensures q.runQueryWithLimit(m, limit) == Success(Truncate(s, limit)) {
      QueryFirst(d, m, limit);
    }
    forall limit: Count, j | 0 <= j < |s|
      ensures q.runQueryWithCursorParams(key, m, limit, "next", Edge(q, key, s[j]).id, Edge(q, key, s[j]).value)
        == Success(Truncate(s[j + 1..], limit))
    {
      QueryAfter(d, m, j, limit);
    }
    forall limit: Count, j | 0 <= j < |s|
      ensures q.runQueryWithCursorParams(key, m, limit, "prev", Edge(q, key, s[j]).id, Edge(q, key, s[j]).value)
        == Success(Truncate(Reverse(s[..j]), limit))
    {
      QueryBefore(d, m, j, limit);
    }
  }

  // ---------------------------------------------------------------------------
  // Positions

  /**
   * Where a token points into `s`: the start, after element `j` (a next
   * token made from `s[j]`), or before element `j` (a previous token made
   * from `s[j]`).
   */
  datatype Position = Start | After(j: nat) | Before(j: nat)

  /** Positions a page can hand out: after an element that has a successor, before one that has a predecessor. */
  predicate Valid<T>(s: seq<T>, pos: Position)
  {
    match pos
    case Start => true
    case After(j) => j + 1 < |s|
    case Before(j) => 1 <= j < |s|
  }

  /** The rows of the page at `pos`, in fetch order: a backward page comes nearest row first. */
  function Rows<T>(s: seq<T>, limit: nat, pos: Position): seq<T>
    requires Valid(s, pos)
  {
    match pos
    case Start => Truncate(s, limit)
    case After(j) => Truncate(s[j + 1..], limit)
    case Before(j) => Truncate(Reverse(s[..j]), limit)
  }

  predicate HasNext<T>(s: seq<T>, limit: nat, pos: Position)
  {
    match pos
    case Start => |s| > limit
    case After(j) => |s| - (j + 1) > limit
    case Before(_) => true
  }

  function NextPos(limit: nat, pos: Position): Position
    requires limit >= 1
  {
    match pos
    case Start => After(limit - 1)
    case After(j) => After(j + limit)
    case Before(j) => After(if j >= 1 then j - 1 else 0)
  }

  predicate HasPrev(limit: nat, pos: Position)
  {
    match pos
    case Start => false
    case After(_) => true
    case Before(j) => j > limit
  }

  function PrevPos(limit: nat, pos: Position): Position
  {
    match pos
    case Start => Start
    case After(j) => Before(j + 1)
    case Before(j) => Before(if j >= limit then j - limit else 0)
  }

  lemma NeighboursValid<T>(s: seq<T>, limit: nat, pos: Position)
    requires limit >= 1 && Valid(s, pos)
    ensures HasNext(s, limit, pos) ==> Valid(s, NextPos(limit, pos))
    ensures HasPrev(limit, pos) ==> Valid(s, PrevPos(limit, pos))
  {
  }

  /** What a `GetCursorData` call returns: the rows, the page information and the error. */
  type Outcome<T> = (seq<T>, CursorPaginationAttribute, Option<Error>)

  /**
   * The pager as a run uses it: a call for a token, the request a token
   * makes, the token a page hands out to resume from a row in a direction,
   * and the cursor that token carries.
   */
  datatype Pager<!T> = Pager(
    call: string -> Outcome<T>,
    request: string -> Request,
    tokenOf: (T, bool) -> string,
    cursorOf: (T, bool) -> PreCursor)

  /** `GetCursorData` over `q` for one order and limit. */
  function PagerOf<T>(q: Querier<T>, order: OrderMethod, limit: int): Pager<T>
    requires 1 <= limit < MaxInt32
  {
    var key := order.cursorKeyName;
    Pager(
      t => CursorDataOutcome(q, t, order, limit),
      t => ClassifyRequest(t, key),
      (x, b) => Token(Edge(q, key, x), b),
      (x, b) => CursorOf(Edge(q, key, x), b))
  }

  /** The token a page hands out for `pos`. */
  function TokenFor<T>(p: Pager<T>, s: seq<T>, pos: Position): string
    requires Valid(s, pos)
  {
    match pos
    case Start => ""
    case After(j) => p.tokenOf(s[j], true)
    case Before(j) => p.tokenOf(s[j], false)
  }

  /**
   * `token` stands for `pos`: it asks for a first page at the start, and
   * otherwise for the cursor of the position's element and direction.
   */
  predicate Represents<T>(p: Pager<T>, s: seq<T>, token: string, pos: Position)
    requires Valid(s, pos)
  {
    match pos
    case Start => p.request(token) == FirstPage
    case After(j) => p.request(token) == Follow(p.cursorOf(s[j], true))
    case Before(j) => p.request(token) == Follow(p.cursorOf(s[j], false))
  }

  /** A call at `pos`: its rows, and where each of its tokens points. */
  ghost predicate StepFacts<T>(p: Pager<T>, s: seq<T>, limit: int, pos: Position, r: Outcome<T>)
    requires 1 <= limit && Valid(s, pos)
  {
    && r.2 == None
    && r.0 == Rows(s, limit, pos)
    && (r.1.nextCursor != "" <==> HasNext(s, limit, pos))
    && (HasNext(s, limit, pos) ==> Valid(s, NextPos(limit, pos)) && r.1.nextCursor == TokenFor(p, s, NextPos(limit, pos)))
    && (r.1.prevCursor != "" <==> HasPrev(limit, pos))
    && (HasPrev(limit, pos) ==> Valid(s, PrevPos(limit, pos)) && r.1.prevCursor == TokenFor(p, s, PrevPos(limit, pos)))
  }

  /**
   * A pager that serves `s`: the empty token and the corrupted empty token
   * ask for a first page, a token handed out for an element asks for its own cursor and no
   * longer does once corrupted, and every call with a token standing for a
   * position is the step at that position.
   */
  ghost predicate Sound<T>(p: Pager<T>, s: seq<T>, limit: int)
  {
    && 1 <= limit && |s| > 0
    && p.request("") == FirstPage && p.request("invalid") == FirstPage
    && (forall j: nat, b: bool | j < |s| ::
          p.request(p.tokenOf(s[j], b)) == Follow(p.cursorOf(s[j], b)) && p.request(p.tokenOf(s[j], b) + "invalid") == FirstPage)
    && (forall pos: Position, t: string :: Valid(s, pos) && Represents(p, s, t, pos) ==> StepFacts(p, s, limit, pos, p.call(t)))
  }

  // ---------------------------------------------------------------------------
  // One call

  /** The hypotheses on the querier. */
  ghost predicate Setting<T>(q: Querier<T>, order: OrderMethod, s: seq<T>, limit: int)
  {
    Serves(q, order, s) && |s| > 0 && 1 <= limit < MaxInt32
  }

  /** A non-empty window fetched with one row beyond the limit, and the page trimmed from it. */
  lemma WindowFacts<T>(w: seq<T>, limit: nat)
    requires limit >= 1 && |w| > 0
    ensures var rows := Truncate(w, limit + 1);
      var page := Truncate(w, limit);
      && rows != [] && rows[..Min(|rows|, limit)] == page
      && (|rows| > limit <==> |w| > limit)
      && page[0] == w[0]
      && (|w| > limit ==> page[|page| - 1] == w[limit - 1])
  {
    var rows := Truncate(w, limit + 1);
    if limit + 1 < |w| {
      assert rows[..limit] == w[..limit];
    } else {
      assert rows == w;
    }
  }

  /**
   * What a first page call returns for the fetched `rows`: the first `limit`
   * of them, no previous token, and a next token from the page's last row
   * exactly when a row beyond the page was fetched.
   */
  ghost predicate FirstShape<T>(p: Pager<T>, r: Outcome<T>, rows: seq<T>, limit: int)
    requires 1 <= limit && rows != []
  {
    var page := rows[..Min(|rows|, limit)];
    && r.0 == page && r.2 == None && r.1.prevCursor == ""
    && (r.1.nextCursor != "" <==> |rows| > limit)
    && (|rows| > limit ==> r.1.nextCursor == p.tokenOf(page[|page| - 1], true))
  }

  /**
   * What a forward call returns for the fetched `rows`: the first `limit` of
   * them, a previous token from the page's first row, and a next token from
   * its last row exactly when a row beyond the page was fetched.
   */
  ghost predicate ForwardShape<T>(p: Pager<T>, r: Outcome<T>, rows: seq<T>, limit: int)
    requires 1 <= limit && rows != []
  {
    var page := rows[..Min(|rows|, limit)];
    && r.0 == page && r.2 == None
    && r.1.prevCursor == p.tokenOf(page[0], false) && r.1.prevCursor != ""
    && (r.1.nextCursor != "" <==> |rows| > limit)
    && (|rows| > limit ==> r.1.nextCursor == p.tokenOf(page[|page| - 1], true))
  }

  /**
   * What a backward call returns for the fetched `rows` (nearest first): the
   * first `limit` of them, a next token from the nearest row, and a previous
   * token from the farthest shown row exactly when a row beyond the page was
   * fetched.
   */
  ghost predicate BackwardShape<T>(p: Pager<T>, r: Outcome<T>, rows: seq<T>, limit: int)
    requires 1 <= limit && rows != []
  {
    var page := rows[..Min(|rows|, limit)];
    && r.0 == page && r.2 == None
    && r.1.nextCursor == p.tokenOf(page[0], true) && r.1.nextCursor != ""
    && (r.1.prevCursor != "" <==> |rows| > limit)
    && (|rows| > limit ==> r.1.prevCursor == p.tokenOf(page[|page| - 1], false))
  }

  /** What `FirstPageOutcome` says of the start window makes the step at the start. */
  lemma StartFacts<T>(p: Pager<T>, s: seq<T>, limit: int, r: Outcome<T>)
    requires 1 <= limit && |s| > 0
    requires FirstShape(p, r, Truncate(s, limit + 1), limit)
    ensures StepFacts(p, s, limit, Start, r)
  {
    WindowFacts(s, limit);
  }

  /** What `ForwardOutcome` says of the window after `s[j]` makes the step there. */
  lemma AfterFacts<T>(p: Pager<T>, s: seq<T>, limit: int, j: nat, r: Outcome<T>)
    requires 1 <= limit && Valid(s, After(j))
    requires Truncate(s[j + 1..], limit + 1) != [] && ForwardShape(p, r, Truncate(s[j + 1..], limit + 1), limit)
    ensures StepFacts(p, s, limit, After(j), r)
  {
    WindowFacts(s[j + 1..], limit);
    assert s[j + 1..][0] == s[j + 1];
    if |s| - (j + 1) > limit {
      assert s[j + 1..][limit - 1] == s[j + limit];
    }
  }

  /** What `BackwardOutcome` says of the window before `s[j]` makes the step there. */
  lemma BeforeFacts<T>(p: Pager<T>, s: seq<T>, limit: int, j: nat, r: Outcome<T>)
    requires 1 <= limit && Valid(s, Before(j))
    requires Truncate(Reverse(s[..j]), limit + 1) != [] && BackwardShape(p, r, Truncate(Reverse(s[..j]), limit + 1), limit)
    ensures StepFacts(p, s, limit, Before(j), r)
  {
    var w := Reverse(s[..j]);
    WindowFacts(w, limit);
    assert w[0] == s[..j][j - 1] == s[j - 1];
    if j > limit {
      assert w[limit - 1] == s[..j][j - limit] == s[j - limit];
    }
  }

  /** The window each position fetches is never empty. */
  lemma RowsPresent<T>(s: seq<T>, limit: nat, pos: Position)
    requires |s| > 0 && Valid(s, pos)
    ensures match pos
      case Start => Truncate(s, limit + 1) != []
      case After(j) => Truncate(s[j + 1..], limit + 1) != []
      case Before(j) => Truncate(Reverse(s[..j]), limit + 1) != []
  {
  }

  /** `FirstPageOutcome` in the pager's terms. */
  lemma PagerFirst<T>(q: Querier<T>, order: OrderMethod, limit: int, token: string, rows: seq<T>)
    requires 1 <= limit < MaxInt32
    requires ClassifyRequest(token, order.cursorKeyName) == FirstPage
    requires Fetch(q, order, limit, FirstPage) == Success(rows) && rows != []
    ensures FirstShape(PagerOf(q, order, limit), PagerOf(q, order, limit).call(token), rows, limit)
  {
    FirstPageOutcome(q, token, order, limit, rows);
  }

  /** `ForwardOutcome` in the pager's terms. */
  lemma PagerForward<T>(q: Querier<T>, order: OrderMethod, limit: int, token: string, c: PreCursor, rows: seq<T>)
    requires 1 <= limit < MaxInt32
    requires ClassifyRequest(token, order.cursorKeyName) == Follow(c) && c.cursorPointsNext
    requires Fetch(q, order, limit, Follow(c)) == Success(rows) && rows != []
    ensures ForwardShape(PagerOf(q, order, limit), PagerOf(q, order, limit).call(token), rows, limit)
  {
    ForwardOutcome(q, token, order, limit, c, rows);
  }

  /** `BackwardOutcome` in the pager's terms. */
  lemma PagerBackward<T>(q: Querier<T>, order: OrderMethod, limit: int, token: string, c: PreCursor, rows: seq<T>)
    requires 1 <= limit < MaxInt32
    requires ClassifyRequest(token, order.cursorKeyName) == Follow(c) && !c.cursorPointsNext
    requires Fetch(q, order, limit, Follow(c)) == Success(rows) && rows != []
    ensures BackwardShape(PagerOf(q, order, limit), PagerOf(q, order, limit).call(token), rows, limit)
  {
    BackwardOutcome(q, token, order, limit, c, rows);
  }

  lemma StepStart<T>(q: Querier<T>, order: OrderMethod, s: seq<T>, limit: int, token: string)
    requires 1 <= limit < MaxInt32 && |s| > 0
    requires ClassifyRequest(token, order.cursorKeyName) == FirstPage
    requires q.runQueryWithLimit(order.stringValue, limit + 1) == Success(Truncate(s, limit + 1))
    ensures var p := PagerOf(q, order, limit); StepFacts(p, s, limit, Start, p.call(token))
  {
    RowsPresent(s, limit, Start);
    PagerFirst(q, order, limit, token, Truncate(s, limit + 1));
    ghost var p := PagerOf(q, order, limit);
    StartFacts(p, s, limit, p.call(token));
  }

  lemma StepAfter<T>(q: Querier<T>, order: OrderMethod, s: seq<T>, limit: int, j: nat, token: string)
    requires 1 <= limit < MaxInt32 && |s| > 0 && Valid(s, After(j))
    requires var e := Edge(q, order.cursorKeyName, s[j]);
      ClassifyRequest(token, order.cursorKeyName) == Follow(CursorOf(e, true))
    requires var e := Edge(q, order.cursorKeyName, s[j]);
      q.runQueryWithCursorParams(order.cursorKeyName, order.stringValue, limit + 1, "next", e.id, e.value)
        == Success(Truncate(s[j + 1..], limit + 1))
    ensures var p := PagerOf(q, order, limit); StepFacts(p, s, limit, After(j), p.call(token))
  {
    var e := Edge(q, order.cursorKeyName, s[j]);
    RowsPresent(s, limit, After(j));
    PagerForward(q, order, limit, token, CursorOf(e, true), Truncate(s[j + 1..], limit + 1));
    ghost var p := PagerOf(q, order, limit);
    AfterFacts(p, s, limit, j, p.call(token));
  }

  lemma StepBefore<T>(q: Querier<T>, order: OrderMethod, s: seq<T>, limit: int, j: nat, token: string)
    requires 1 <= limit < MaxInt32 && |s| > 0 && Valid(s, Before(j))
    requires var e := Edge(q, order.cursorKeyName, s[j]);
      ClassifyRequest(token, order.cursorKeyName) == Follow(CursorOf(e, false))
    requires var e := Edge(q, order.cursorKeyName, s[j]);
      q.runQueryWithCursorParams(order.cursorKeyName, order.stringValue, limit + 1, "prev", e.id, e.value)
        == Success(Truncate(Reverse(s[..j]), limit + 1))
    ensures var p := PagerOf(q, order, limit); StepFacts(p, s, limit, Before(j), p.call(token))
  {
    var e := Edge(q, order.cursorKeyName, s[j]);
    RowsPresent(s, limit, Before(j));
    PagerBackward(q, order, limit, token, CursorOf(e, false), Truncate(Reverse(s[..j]), limit + 1));
    ghost var p := PagerOf(q, order, limit);
    BeforeFacts(p, s, limit, j, p.call(token));
  }

  /**
   * One call of `GetCursorData` with a token standing for `pos` returns the
   * page at `pos`, and hands out exactly the tokens of the positions next to it.
   */
  lemma Step<T>(q: Querier<T>, order: OrderMethod, s: seq<T>, limit: int, pos: Position, token: string)
    requires Setting(q, order, s, limit) && Valid(s, pos) && Represents(PagerOf(q, order, limit), s, token, pos)
    ensures var p := PagerOf(q, order, limit); StepFacts(p, s, limit, pos, p.call(token))
  {
    var key := order.cursorKeyName;
    match pos
    case Start =>
      StepStart(q, order, s, limit, token);
    case After(j) =>
      var e := Edge(q, key, s[j]);
      assert q.runQueryWithCursorParams(key, order.stringValue, limit + 1, "next", e.id, e.value)
        == Success(Truncate(s[j + 1..], limit + 1));
      StepAfter(q, order, s, limit, j, token);
    case Before(j) =>
      var e := Edge(q, key, s[j]);
      assert q.runQueryWithCursorParams(key, order.stringValue, limit + 1, "prev", e.id, e.value)
        == Success(Truncate(Reverse(s[..j]), limit + 1));
      StepBefore(q, order, s, limit, j, token);
  }

  /** Appending "invalid" to the empty token does not decode either. */
  lemma EmptyTokenCorrupted(keyName: string)
    ensures ClassifyRequest("invalid", keyName) == FirstPage
  {
    InvalidSuffix();
    Base64.AppendBreaksQuanta("", "invalid");
    assert "" + "invalid" == "invalid";
  }

  /** The pager of a querier that serves `s` is sound for `s`. */
  lemma PagerSound<T>(q: Querier<T>, order: OrderMethod, s: seq<T>, limit: int)
    requires Setting(q, order, s, limit)
    ensures Sound(PagerOf(q, order, limit), s, limit)
  {
    var p := PagerOf(q, order, limit);
    var key := order.cursorKeyName;
    EmptyTokenCorrupted(key);
    forall j: nat, b: bool | j < |s|
      ensures p.request(p.tokenOf(s[j], b)) == Follow(p.cursorOf(s[j], b)) && p.request(p.tokenOf(s[j], b) + "invalid") == FirstPage
    {
      TokenRequest(Edge(q, key, s[j]), b, key);
    }
    forall pos: Position, t: string | Valid(s, pos) && Represents(p, s, t, pos)
      ensures StepFacts(p, s, limit, pos, p.call(t))
    {
      Step(q, order, s, limit, pos, t);
    }
  }

  // ---------------------------------------------------------------------------
  // The driver loop

  /** The token the next turn uses: the chosen direction's token while directions last, then corrupted if asked. */
  function Advance(pageInfo: CursorPaginationAttribute, cursor: string, dirs: seq<CurDir>, cursorRewrite: seq<bool>,
    i: nat): string
  {
    var followed := if i < |dirs| then (if dirs[i] == Next then pageInfo.nextCursor else pageInfo.prevCursor) else cursor;
    if i < |cursorRewrite| && cursorRewrite[i] then followed + "invalid" else followed
  }

  /** The pages a run of `turns` calls returns, from turn `i` on with token `cursor`. */
  function Replay<T>(p: Pager<T>, cursor: string, dirs: seq<CurDir>, cursorRewrite: seq<bool>, i: nat, turns: nat)
    : (r: seq<seq<T>>)
    ensures |r| == turns
    decreases turns
  {
    if turns == 0 then []
    else
      var res := p.call(cursor);
      [res.0] + Replay(p, Advance(res.1, cursor, dirs, cursorRewrite, i), dirs, cursorRewrite, i + 1, turns - 1)
  }

  /** The pager's call is `GetCursorData`'s outcome. */
  lemma PagerCall<T>(q: Querier<T>, order: OrderMethod, limit: int, token: string)
    requires 1 <= limit < MaxInt32
    ensures PagerOf(q, order, limit).call(token) == CursorDataOutcome(q, token, order, limit)
  {
  }

  /** A run of one or more turns: the first call's rows, then the run from the token it leads to. */
  lemma ReplayTurn<T>(p: Pager<T>, cursor: string, dirs: seq<CurDir>, cursorRewrite: seq<bool>, i: nat, turns: nat,
    done: seq<seq<T>>, rows: seq<T>, pageInfo: CursorPaginationAttribute, err: Option<Error>)
    requires turns > 0 && p.call(cursor) == (rows, pageInfo, err)
    ensures done + Replay(p, cursor, dirs, cursorRewrite, i, turns)
      == (done + [rows]) + Replay(p, Advance(pageInfo, cursor, dirs, cursorRewrite, i), dirs, cursorRewrite, i + 1, turns - 1)
  {
  }

  /** Recording a page at turn `i` extends the recorded prefix by that page. */
  lemma TakeSet<T>(result: seq<seq<T>>, i: nat, res: seq<T>)
    requires i < |result|
    ensures result[i := res][..i + 1] == result[..i] + [res]
  {
  }

  /**
   * The loop of `TestGetCursorData` for one table entry: `reqTurn` calls,
   * each result recorded, the token replaced by the chosen direction's token
   * while directions last, and corrupted where `cursorRewrite` says so.
   */
  method TestGetCursorData<T>(q: Querier<T>, order: OrderMethod, limit: int, reqTurn: nat, dirs: seq<CurDir>,
    cursorRewrite: seq<bool>)
    returns (result: seq<seq<T>>)
    requires 1 <= limit < MaxInt32
    ensures result == Replay(PagerOf(q, order, limit), "", dirs, cursorRewrite, 0, reqTurn)
  {
    ghost var p := PagerOf(q, order, limit);
    ghost var whole := Replay(p, "", dirs, cursorRewrite, 0, reqTurn);
    result := seq(reqTurn, _ => []);
    var cursor := "";
    for i := 0 to reqTurn
      invariant |result| == reqTurn
      invariant whole == result[..i] + Replay(p, cursor, dirs, cursorRewrite, i, reqTurn - i)
    {
      var res, pi, err := GetCursorData(q, cursor, order, limit);
      PagerCall(q, order, limit, cursor);
      ReplayTurn(p, cursor, dirs, cursorRewrite, i, reqTurn - i, result[..i], res, pi, err);
      TakeSet(result, i, res);
      result := result[i := res];
      cursor := NextCursor(pi, cursor, dirs, cursorRewrite, i);
    }
    assert result[..reqTurn] == result;
  }

  /**
   * The end of one turn of the loop: take the chosen direction's token while
   * directions last, then append "invalid" where `cursorRewrite` says so.
   */
  method NextCursor(pageInfo: CursorPaginationAttribute, cursor: string, dirs: seq<CurDir>, cursorRewrite: seq<bool>,
    i: nat)
    returns (next: string)
    ensures next == Advance(pageInfo, cursor, dirs, cursorRewrite, i)
  {
    next := cursor;
    if i < |dirs| {
      if dirs[i] == Next {
        next := pageInfo.nextCursor;
      } else {
        next := pageInfo.prevCursor;
      }
    }
    if i < |cursorRewrite| && cursorRewrite[i] {
      next := next + "invalid";
    }
  }

  // ---------------------------------------------------------------------------
  // The walk over positions

  /** Where the next call stands: the chosen direction's position, or the start when that token is empty or corrupted. */
  function NextState<T>(s: seq<T>, limit: nat, pos: Position, dirs: seq<CurDir>, cursorRewrite: seq<bool>, i: nat)
    : Position
    requires limit >= 1
  {
    var followed :=
      if i < |dirs| then
        if dirs[i] == Next then (if HasNext(s, limit, pos) then NextPos(limit, pos) else Start)
        else (if HasPrev(limit, pos) then PrevPos(limit, pos) else Start)
      else pos;
    if i < |cursorRewrite| && cursorRewrite[i] then Start else followed
  }

  lemma NextStateValid<T>(s: seq<T>, limit: nat, pos: Position, dirs: seq<CurDir>, cursorRewrite: seq<bool>, i: nat)
    requires limit >= 1 && Valid(s, pos)
    ensures Valid(s, NextState(s, limit, pos, dirs, cursorRewrite, i))
  {
    NeighboursValid(s, limit, pos);
  }

  /** The pages of a run, position by position. */
  function Walk<T>(s: seq<T>, limit: nat, pos: Position, dirs: seq<CurDir>, cursorRewrite: seq<bool>,
    i: nat, turns: nat): (r: seq<seq<T>>)
    requires limit >= 1 && Valid(s, pos)
    ensures |r| == turns
    decreases turns
  {
    if turns == 0 then []
    else
      NextStateValid(s, limit, pos, dirs, cursorRewrite, i);
      [Rows(s, limit, pos)] + Walk(s, limit, NextState(s, limit, pos, dirs, cursorRewrite, i), dirs, cursorRewrite, i + 1, turns - 1)
  }

  /** A position's own token stands for it. */
  lemma TokenRepresents<T>(p: Pager<T>, s: seq<T>, limit: int, pos: Position)
    requires Sound(p, s, limit) && Valid(s, pos)
    ensures Represents(p, s, TokenFor(p, s, pos), pos)
  {
  }

  /** A position's token, corrupted, starts the walk over at the first page. */
  lemma CorruptedRestarts<T>(p: Pager<T>, s: seq<T>, limit: int, pos: Position)
    requires Sound(p, s, limit) && Valid(s, pos)
    ensures Represents(p, s, TokenFor(p, s, pos) + "invalid", Start)
  {
    if pos.Start? {
      assert TokenFor(p, s, pos) + "invalid" == "invalid";
    }
  }

  /** The token for the next call stands for the position `NextState` gives. */
  lemma FollowRepresents<T>(p: Pager<T>, s: seq<T>, limit: int, pos: Position, token: string,
    dirs: seq<CurDir>, cursorRewrite: seq<bool>, i: nat)
    requires Sound(p, s, limit) && Valid(s, pos) && Represents(p, s, token, pos)
    requires i < |cursorRewrite| ==> i < |dirs|
    ensures var res := p.call(token);
      var next := NextState(s, limit, pos, dirs, cursorRewrite, i);
      && res.0 == Rows(s, limit, pos)
      && Valid(s, next)
      && Represents(p, s, Advance(res.1, token, dirs, cursorRewrite, i), next)
  {
    var res := p.call(token);
    assert StepFacts(p, s, limit, pos, res);
    NeighboursValid(s, limit, pos);
    NextStateValid(s, limit, pos, dirs, cursorRewrite, i);
    if i < |dirs| {
      var has := if dirs[i] == Next then HasNext(s, limit, pos) else HasPrev(limit, pos);
      var q := if !has then Start else if dirs[i] == Next then NextPos(limit, pos) else PrevPos(limit, pos);
      assert Valid(s, q);
      var followed := if dirs[i] == Next then res.1.nextCursor else res.1.prevCursor;
      assert followed == TokenFor(p, s, q);
      if i < |cursorRewrite| && cursorRewrite[i] {
        CorruptedRestarts(p, s, limit, q);
      } else {
        TokenRepresents(p, s, limit, q);
      }
    }
  }

  /**
   * As long as corrupting stops when the directions do, a run of a sound
   * pager from any token standing for `pos` returns the pages of the walk
   * from `pos`.
   */
  lemma {:induction false} ReplayWalk<T>(p: Pager<T>, s: seq<T>, limit: int, pos: Position,
    token: string, dirs: seq<CurDir>, cursorRewrite: seq<bool>, i: nat, turns: nat)
    requires Sound(p, s, limit) && Valid(s, pos) && Represents(p, s, token, pos)
    requires |cursorRewrite| <= |dirs|
    ensures Replay(p, token, dirs, cursorRewrite, i, turns) == Walk(s, limit, pos, dirs, cursorRewrite, i, turns)
    decreases turns
  {
    if turns > 0 {
      var res := p.call(token);
      var next := NextState(s, limit, pos, dirs, cursorRewrite, i);
      FollowRepresents(p, s, limit, pos, token, dirs, cursorRewrite, i);
      ReplayWalk(p, s, limit, next, Advance(res.1, token, dirs, cursorRewrite, i), dirs, cursorRewrite, i + 1, turns - 1);
    }
  }

  /** The reference querier's runs, from the empty token, are walks over the canonical order. */
  lemma DriverWalks(d: seq<DummyStatus>, m: string, limit: int, reqTurn: nat, dirs: seq<CurDir>, cursorRewrite: seq<bool>)
    requires Known(m) && UniquePkeys(d) && |d| > 0 && 1 <= limit < MaxInt32
    requires |cursorRewrite| <= |dirs|
    ensures Replay(PagerOf(NewCursorQuerier(d), OrderFor(m), limit), "", dirs, cursorRewrite, 0, reqTurn)
      == Walk(Canonical(m, d), limit, Start, dirs, cursorRewrite, 0, reqTurn)
  {
    var p := PagerOf(NewCursorQuerier(d), OrderFor(m), limit);
    ReferenceServes(d, m);
    PagerSound(NewCursorQuerier(d), OrderFor(m), Canonical(m, d), limit);
    ReplayWalk(p, Canonical(m, d), limit, Start, "", dirs, cursorRewrite, 0, reqTurn);
  }

  /** For rows already in `Pkey` order, the querier as the test writes it serves the canonical order too. */
  lemma ReferenceServesAsWritten(d: seq<DummyStatus>, m: string)
    requires Known(m) && UniquePkeys(d) && SortedBy(ByPkey(), d)
    ensures Serves(NewCursorQuerierAsWritten(d), OrderFor(m), Canonical(m, d))
  {
    var q := NewCursorQuerier(d);
    var qa := NewCursorQuerierAsWritten(d);
    ReferenceServes(d, m);
    forall limit: Count ensures qa.runQueryWithLimit(m, limit) == q.runQueryWithLimit(m, limit) {
      NumberedAgrees(d, m, limit, 0);
    }
    assert forall key, x :: Edge(qa, key, x) == Edge(q, key, x);
  }

  /**
   * The test's run as written, over rows already in `Pkey` order, is the same
   * walk over the canonical order.
   */
  lemma DriverWalksAsWritten(d: seq<DummyStatus>, m: string, limit: int, reqTurn: nat, dirs: seq<CurDir>,
    cursorRewrite: seq<bool>)
    requires Known(m) && UniquePkeys(d) && SortedBy(ByPkey(), d) && |d| > 0 && 1 <= limit < MaxInt32
    requires |cursorRewrite| <= |dirs|
    ensures Replay(PagerOf(NewCursorQuerierAsWritten(d), OrderFor(m), limit), "", dirs, cursorRewrite, 0, reqTurn)
      == Walk(Canonical(m, d), limit, Start, dirs, cursorRewrite, 0, reqTurn)
  {
    var q := NewCursorQuerierAsWritten(d);
    var p := PagerOf(q, OrderFor(m), limit);
    ReferenceServesAsWritten(d, m);
    PagerSound(q, OrderFor(m), Canonical(m, d), limit);
    ReplayWalk(p, Canonical(m, d), limit, Start, "", dirs, cursorRewrite, 0, reqTurn);
  }

  // ---------------------------------------------------------------------------
  // Following next tokens

  function Flatten<T>(pages: seq<seq<T>>): seq<T>
  {
    if pages == [] then [] else pages[0] + Flatten(pages[1..])
  }

  /** The number of pages of `limit` rows that `n` rows fill. */
  function PageCount(n: nat, limit: nat): (c: nat)
    requires limit >= 1
    ensures c >= 1
    decreases n
  {
    if n <= limit then 1 else 1 + PageCount(n - limit, limit)
  }

  /** The position whose page starts at element `b`. */
  function PosAt(b: nat): Position
  {
    if b == 0 then Start else After(b - 1)
  }

  /** Turn `k` follows the next token and does not corrupt it. */
  predicate NextAt(dirs: seq<CurDir>, cursorRewrite: seq<bool>, k: nat)
  {
    k < |dirs| && dirs[k] == Next && !(k < |cursorRewrite| && cursorRewrite[k])
  }

  /** Turns `i` to `i + turns - 1` follow next tokens and corrupt nothing. */
  predicate AllNext(dirs: seq<CurDir>, cursorRewrite: seq<bool>, i: nat, turns: nat)
  {
    forall k: nat :: i <= k < i + turns ==> NextAt(dirs, cursorRewrite, k)
  }

  /** Where the page after the one at element `b` starts: the next `limit` rows on, or back at 0 once they run out. */
  function NextStart(n: nat, limit: nat, b: nat): nat
  {
    if n - b <= limit then 0 else b + limit
  }

  /** The pages of `turns` next-following calls from the page at element `b`, on the sequence alone. */
  function ForwardPages<T>(s: seq<T>, limit: nat, b: nat, turns: nat): (r: seq<seq<T>>)
    requires limit >= 1 && b < |s|
    ensures |r| == turns
    decreases turns
  {
    if turns == 0 then []
    else [Truncate(s[b..], limit)] + ForwardPages(s, limit, NextStart(|s|, limit, b), turns - 1)
  }

  /** One more page of a forward walk: the page at element `b`, then the walk from the next page's start. */
  lemma WalkForward<T>(s: seq<T>, limit: nat, b: nat, dirs: seq<CurDir>, cursorRewrite: seq<bool>, i: nat, turns: nat)
    requires limit >= 1 && b < |s| && turns >= 1 && NextAt(dirs, cursorRewrite, i)
    ensures NextStart(|s|, limit, b) < |s|
    ensures var w := Walk(s, limit, PosAt(b), dirs, cursorRewrite, i, turns);
      w == [Truncate(s[b..], limit)] + Walk(s, limit, PosAt(NextStart(|s|, limit, b)), dirs, cursorRewrite, i + 1, turns - 1)
  {
    assert Rows(s, limit, PosAt(b)) == Truncate(s[b..], limit) by {
      if b == 0 {
        assert s[0..] == s;
      }
    }
    assert NextState(s, limit, PosAt(b), dirs, cursorRewrite, i) == PosAt(NextStart(|s|, limit, b));
  }

  /** The next-following turns from `i + 1` on, when those from `i` on for one more turn follow next. */
  lemma AllNextTail(dirs: seq<CurDir>, cursorRewrite: seq<bool>, i: nat, turns: nat)
    requires AllNext(dirs, cursorRewrite, i, turns + 1)
    ensures NextAt(dirs, cursorRewrite, i) && AllNext(dirs, cursorRewrite, i + 1, turns)
  {
    assert NextAt(dirs, cursorRewrite, i);
    forall k: nat | i + 1 <= k < i + 1 + turns ensures NextAt(dirs, cursorRewrite, k) {
      assert i <= k < i + turns + 1;
    }
  }

  /** Directions that all say next, with nothing corrupted, follow next tokens throughout. */
  lemma DirsAllNext(dirs: seq<CurDir>, turns: nat)
    requires |dirs| >= turns && forall k :: 0 <= k < turns ==> dirs[k] == Next
    ensures AllNext(dirs, [], 0, turns)
  {
    forall k: nat | 0 <= k < turns ensures NextAt(dirs, [], k) {
      assert dirs[k] == Next;
    }
  }

  /** While every turn follows the next token, the walk is the sequence's forward pages. */
  lemma {:induction false} WalkIsForward<T>(s: seq<T>, limit: nat, b: nat, dirs: seq<CurDir>,
    cursorRewrite: seq<bool>, i: nat, turns: nat)
    requires limit >= 1 && b < |s| && AllNext(dirs, cursorRewrite, i, turns)
    ensures Walk(s, limit, PosAt(b), dirs, cursorRewrite, i, turns) == ForwardPages(s, limit, b, turns)
    decreases turns
  {
    if turns > 0 {
      AllNextTail(dirs, cursorRewrite, i, turns - 1);
      WalkForward(s, limit, b, dirs, cursorRewrite, i, turns);
      WalkIsForward(s, limit, NextStart(|s|, limit, b), dirs, cursorRewrite, i + 1, turns - 1);
    }
  }

  lemma FlattenCons<T>(w: seq<seq<T>>, n: nat)
    requires 1 <= n <= |w|
    ensures Flatten(w[..n]) == w[0] + Flatten(w[1..][..n - 1])
  {
    assert w[..n][1..] == w[1..][..n - 1];
  }

  /**
   * The forward pages from element `b` show the elements from `b` on, each
   * once and in order, over `PageCount` pages.
   */
  lemma {:induction false} VisitsFrom<T>(s: seq<T>, limit: nat, b: nat, extra: nat)
    requires limit >= 1 && b < |s|
    ensures var n := PageCount(|s| - b, limit);
      Flatten(ForwardPages(s, limit, b, n + extra)[..n]) == s[b..]
    decreases |s| - b
  {
    var n := PageCount(|s| - b, limit);
    var w := ForwardPages(s, limit, b, n + extra);
    FlattenCons(w, n);
    if |s| - b <= limit {
      assert w[1..][..n - 1] == [];
    } else {
      VisitsFrom(s, limit, b + limit, extra);
      ForwardPagesTail(s, limit, b, n + extra);
      assert s[b..] == s[b..b + limit] + s[b + limit..];
    }
  }

  /** After those `PageCount` pages, the next forward page is the first page again. */
  lemma {:induction false} RestartsAfter<T>(s: seq<T>, limit: nat, b: nat, extra: nat)
    requires limit >= 1 && b < |s| && extra > 0
    ensures var n := PageCount(|s| - b, limit);
      ForwardPages(s, limit, b, n + extra)[n] == Truncate(s, limit)
    decreases |s| - b
  {
    var n := PageCount(|s| - b, limit);
    var w := ForwardPages(s, limit, b, n + extra);
    ForwardPagesTail(s, limit, b, n + extra);
    if |s| - b <= limit {
      ForwardPagesTail(s, limit, 0, extra);
      assert s[0..] == s;
    } else {
      RestartsAfter(s, limit, b + limit, extra);
    }
  }

  /** The first forward page is the one at `b`; the rest start from the next page's start. */
  lemma ForwardPagesTail<T>(s: seq<T>, limit: nat, b: nat, turns: nat)
    requires limit >= 1 && b < |s| && turns >= 1
    ensures var w := ForwardPages(s, limit, b, turns);
      w[0] == Truncate(s[b..], limit) && w[1..] == ForwardPages(s, limit, NextStart(|s|, limit, b), turns - 1)
  {
  }

  /** The first `n` pages show every element of `s` once, in order, and the page after them is the first page again. */
  ghost predicate CoversThenRestarts<T>(pages: seq<seq<T>>, s: seq<T>, n: nat)
  {
    n < |pages| && Flatten(pages[..n]) == s && pages[n] == pages[0]
  }

  /** The forward pages from the first element show every element once, in order, then the first page again. */
  lemma ForwardPagesCover<T>(s: seq<T>, limit: nat)
    requires limit >= 1 && |s| > 0
    ensures var n := PageCount(|s|, limit);
      CoversThenRestarts(ForwardPages(s, limit, 0, n + 1), s, n)
  {
    VisitsFrom(s, limit, 0, 1);
    RestartsAfter(s, limit, 0, 1);
    assert s[0..] == s;
  }

  /** A walk from the start that only follows next tokens shows every element once, in order, then the first page again. */
  lemma ForwardWalk<T>(s: seq<T>, limit: nat, dirs: seq<CurDir>, n: nat)
    requires limit >= 1 && |s| > 0 && n == PageCount(|s|, limit)
    requires |dirs| >= n + 1 && forall k :: 0 <= k <= n ==> dirs[k] == Next
    ensures CoversThenRestarts(Walk(s, limit, Start, dirs, [], 0, n + 1), s, n)
  {
    DirsAllNext(dirs, n + 1);
    WalkIsForward(s, limit, 0, dirs, [], 0, n + 1);
    ForwardPagesCover(s, limit);
  }

  /**
   * From the empty token, following next tokens for `PageCount` calls of a
   * sound pager shows every element once, in order, and one call more shows
   * the first page again.
   */
  lemma ForwardTraversal<T>(p: Pager<T>, s: seq<T>, limit: int, dirs: seq<CurDir>)
    requires Sound(p, s, limit)
    requires var n := PageCount(|s|, limit);
      |dirs| >= n + 1 && forall k :: 0 <= k <= n ==> dirs[k] == Next
    ensures var n := PageCount(|s|, limit);
      CoversThenRestarts(Replay(p, "", dirs, [], 0, n + 1), s, n)
  {
    var n := PageCount(|s|, limit);
    ReplayWalk(p, s, limit, Start, "", dirs, [], 0, n + 1);
    ForwardWalk(s, limit, dirs, n);
  }

  // ---------------------------------------------------------------------------
  // Going back

  lemma ReverseWindow<T>(s: seq<T>, b: nat, e: nat)
    requires b <= e <= |s|
    ensures Truncate(Reverse(s[..e]), e - b) == Reverse(s[b..e])
  {
    var r := Reverse(s[..e]);
    assert |r[..e - b]| == |Reverse(s[b..e])|;
    forall k | 0 <= k < e - b ensures r[..e - b][k] == Reverse(s[b..e])[k] {
      assert r[k] == s[..e][e - 1 - k];
    }
  }

  /**
   * Going forward and then back: the previous token of the next page shows the
   * same rows again, nearest first, and its next token leads to that next page.
   */
  lemma NextThenPrev<T>(s: seq<T>, limit: nat, pos: Position)
    requires limit >= 1 && Valid(s, pos) && !pos.Before? && HasNext(s, limit, pos)
    ensures var p := NextPos(limit, pos);
      && Valid(s, p) && HasPrev(limit, p) && Valid(s, PrevPos(limit, p))
      && Rows(s, limit, PrevPos(limit, p)) == Reverse(Rows(s, limit, pos))
      && HasNext(s, limit, PrevPos(limit, p)) && NextPos(limit, PrevPos(limit, p)) == p
  {
    var b := if pos.Start? then 0 else pos.j + 1;
    var e := b + limit;
    assert PrevPos(limit, NextPos(limit, pos)) == Before(e);
    assert Rows(s, limit, pos) == s[b..e] by {
      if pos.Start? {
        assert s[..limit] == s[0..limit];
      }
    }
    ReverseWindow(s, b, e);
  }

  // ---------------------------------------------------------------------------
  // Going forward k pages and back k pages

  /** Where a walk from `pos` at turn `i` stands after `t` more turns. */
  function WalkPos<T>(s: seq<T>, limit: nat, pos: Position, dirs: seq<CurDir>, cursorRewrite: seq<bool>,
    i: nat, t: nat): Position
    requires limit >= 1
    decreases t
  {
    if t == 0 then pos else WalkPos(s, limit, NextState(s, limit, pos, dirs, cursorRewrite, i), dirs, cursorRewrite, i + 1, t - 1)
  }

  /** Page `t` of a walk is the page at the position the walk has reached by then. */
  lemma {:induction false} WalkAt<T>(s: seq<T>, limit: nat, pos: Position, dirs: seq<CurDir>, cursorRewrite: seq<bool>,
    i: nat, turns: nat, t: nat)
    requires limit >= 1 && Valid(s, pos) && t < turns
    ensures Valid(s, WalkPos(s, limit, pos, dirs, cursorRewrite, i, t))
    ensures Walk(s, limit, pos, dirs, cursorRewrite, i, turns)[t] == Rows(s, limit, WalkPos(s, limit, pos, dirs, cursorRewrite, i, t))
    decreases t
  {
    if t > 0 {
      NextStateValid(s, limit, pos, dirs, cursorRewrite, i);
      WalkAt(s, limit, NextState(s, limit, pos, dirs, cursorRewrite, i), dirs, cursorRewrite, i + 1, turns - 1, t - 1);
    }
  }

  /** `a` turns and then `b` more are `a + b` turns. */
  lemma {:induction false} WalkPosSplit<T>(s: seq<T>, limit: nat, pos: Position, dirs: seq<CurDir>,
    cursorRewrite: seq<bool>, i: nat, a: nat, b: nat)
    requires limit >= 1
    ensures WalkPos(s, limit, pos, dirs, cursorRewrite, i, a + b)
      == WalkPos(s, limit, WalkPos(s, limit, pos, dirs, cursorRewrite, i, a), dirs, cursorRewrite, i + a, b)
    decreases a
  {
    if a > 0 {
      WalkPosSplit(s, limit, NextState(s, limit, pos, dirs, cursorRewrite, i), dirs, cursorRewrite, i + 1, a - 1, b);
    }
  }

  lemma MulMono(a: nat, b: nat, c: nat)
    requires a <= b
    ensures a * c <= b * c
  {
    assert b * c == a * c + (b - a) * c;
  }

  /** Following next tokens from the page after element `m * limit - 1` up to turn `k` stands after element `k * limit - 1`. */
  lemma {:induction false} NextRun<T>(s: seq<T>, limit: nat, dirs: seq<CurDir>, m: nat, k: nat)
    requires limit >= 1 && 1 <= m <= k && k * limit < |s|
    requires k <= |dirs| && forall t :: 0 <= t < k ==> dirs[t] == Next
    ensures m * limit >= 1 && k * limit >= 1
    ensures WalkPos(s, limit, After(m * limit - 1), dirs, [], m, k - m) == After(k * limit - 1)
    decreases k - m
  {
    MulMono(1, m, limit);
    MulMono(m, k, limit);
    if m < k {
      MulMono(m + 1, k, limit);
      assert (m + 1) * limit == m * limit + limit;
      assert dirs[m] == Next;
      assert NextState(s, limit, After(m * limit - 1), dirs, [], m) == After((m + 1) * limit - 1);
      NextRun(s, limit, dirs, m + 1, k);
    }
  }

  /** Following previous tokens from before element `j * limit` for `j - 1` turns stands before element `limit`. */
  lemma {:induction false} PrevRun<T>(s: seq<T>, limit: nat, dirs: seq<CurDir>, i: nat, j: nat)
    requires limit >= 1 && j >= 1
    requires i + j - 1 <= |dirs| && forall t :: i <= t < i + j - 1 ==> dirs[t] == Prev
    ensures WalkPos(s, limit, Before(j * limit), dirs, [], i, j - 1) == Before(limit)
    decreases j
  {
    if j > 1 {
      MulMono(2, j, limit);
      assert (j - 1) * limit == j * limit - limit;
      assert dirs[i] == Prev;
      assert NextState(s, limit, Before(j * limit), dirs, [], i) == Before((j - 1) * limit);
      PrevRun(s, limit, dirs, i + 1, j - 1);
    }
  }

  /** After `k` next turns from the start and then `k` previous turns, a walk stands before element `limit`. */
  lemma BackPos<T>(s: seq<T>, limit: nat, dirs: seq<CurDir>, k: nat)
    requires limit >= 1 && 1 <= k && k * limit < |s|
    requires |dirs| >= 2 * k
    requires forall t :: 0 <= t < k ==> dirs[t] == Next
    requires forall t :: k <= t < 2 * k ==> dirs[t] == Prev
    ensures limit < |s|
    ensures WalkPos(s, limit, Start, dirs, [], 0, 2 * k) == Before(limit)
  {
    MulMono(1, k, limit);
    assert NextState(s, limit, Start, dirs, [], 0) == After(1 * limit - 1);
    NextRun(s, limit, dirs, 1, k);
    WalkPosSplit(s, limit, Start, dirs, [], 0, 1, k - 1);
    var top := WalkPos(s, limit, Start, dirs, [], 0, k);
    assert NextState(s, limit, top, dirs, [], k) == Before(k * limit);
    PrevRun(s, limit, dirs, k + 1, k);
    WalkPosSplit(s, limit, top, dirs, [], k, 1, k - 1);
    WalkPosSplit(s, limit, Start, dirs, [], 0, k, k);
  }

  /** The page before element `limit` is the first page, nearest row first. */
  lemma FirstPageReversed<T>(s: seq<T>, limit: nat)
    requires 1 <= limit < |s|
    ensures Rows(s, limit, Before(limit)) == Reverse(Rows(s, limit, Start))
  {
    assert Rows(s, limit, Start) == s[..limit];
    assert |Reverse(s[..limit])| == limit;
  }

  /**
   * After `k` next pages from the first page and then `k` previous pages, a
   * walk shows the first page again, nearest row first.
   */
  lemma BackToFirst<T>(s: seq<T>, limit: nat, dirs: seq<CurDir>, k: nat)
    requires limit >= 1 && 1 <= k && k * limit < |s|
    requires |dirs| >= 2 * k
    requires forall t :: 0 <= t < k ==> dirs[t] == Next
    requires forall t :: k <= t < 2 * k ==> dirs[t] == Prev
    ensures Walk(s, limit, Start, dirs, [], 0, 2 * k + 1)[2 * k] == Reverse(Rows(s, limit, Start))
  {
    BackPos(s, limit, dirs, k);
    WalkAt(s, limit, Start, dirs, [], 0, 2 * k + 1, 2 * k);
    FirstPageReversed(s, limit);
  }

  /** A rewrite list that corrupts nothing walks as no rewrite list at all. */
  lemma {:induction false} WalkNoRewrite<T>(s: seq<T>, limit: nat, pos: Position, dirs: seq<CurDir>,
    cursorRewrite: seq<bool>, i: nat, turns: nat)
    requires limit >= 1 && Valid(s, pos)
    requires forall t :: 0 <= t < |cursorRewrite| ==> !cursorRewrite[t]
    ensures Walk(s, limit, pos, dirs, cursorRewrite, i, turns) == Walk(s, limit, pos, dirs, [], i, turns)
    decreases turns
  {
    if turns > 0 {
      assert NextState(s, limit, pos, dirs, cursorRewrite, i) == NextState(s, limit, pos, dirs, [], i);
      NextStateValid(s, limit, pos, dirs, [], i);
      WalkNoRewrite(s, limit, NextState(s, limit, pos, dirs, [], i), dirs, cursorRewrite, i + 1, turns - 1);
    }
  }

  /**
   * From the empty token, `k` next calls and then `k` previous calls of a
   * sound pager, corrupting no token, show the first page's rows again,
   * nearest first.
   */
  lemma BackAndForth<T>(p: Pager<T>, s: seq<T>, limit: int, dirs: seq<CurDir>, cursorRewrite: seq<bool>, k: nat)
    requires Sound(p, s, limit)
    requires 1 <= k && k * limit < |s|
    requires |dirs| >= 2 * k
    requires forall t :: 0 <= t < k ==> dirs[t] == Next
    requires forall t :: k <= t < 2 * k ==> dirs[t] == Prev
    requires |cursorRewrite| <= |dirs| && forall t :: 0 <= t < |cursorRewrite| ==> !cursorRewrite[t]
    ensures var r := Replay(p, "", dirs, cursorRewrite, 0, 2 * k + 1);
      r[2 * k] == Reverse(r[0]) && r[0] == Truncate(s, limit)
  {
    ReplayWalk(p, s, limit, Start, "", dirs, cursorRewrite, 0, 2 * k + 1);
    WalkNoRewrite(s, limit, Start, dirs, cursorRewrite, 0, 2 * k + 1);
    BackToFirst(s, limit, dirs, k);
    WalkAt(s, limit, Start, dirs, [], 0, 2 * k + 1, 0);
  }
}
