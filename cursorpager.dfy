/**
 * The cursor pager: the token codec, the page-information calculator and the
 * `GetCursorData` orchestrator of cursorpager.go.
 */
module CursorPager {
  import opened Wrappers
  import opened Json
  import Base64

  const MaxInt32: int := 0x7FFF_FFFF

  /** A non-negative `int32`, the row limit handed to a querier. */
  type Count = x: int | 0 <= x <= MaxInt32

  /** The two sentinel errors of error.go, and a querier error wrapped with its context. */
  datatype Error = ErrDataNoRecord | ErrFailedDecodeCursor | QueryFailed(context: string, cause: string)

  const CursorQueryContext := "failed to run query with cursor params"
  const NumberedQueryContext := "failed to run query with numbered params"

  /** The tokens handed back to the caller; `""` means there is no such page. */
  datatype CursorPaginationAttribute = CursorPaginationAttribute(nextCursor: string, prevCursor: string)

  const NoPages := CursorPaginationAttribute("", "")

  /**
   * The cursor behind a token. `valid` is never serialised; the `any` fields of
   * the Go record are JSON values.
   */
  datatype PreCursor = PreCursor(
    valid: bool,
    cursorId: JsonValue,
    cursorPointsNext: bool,
    subCursorName: string,
    subCursor: JsonValue)

  /** Go's zero `preCursor{}`. */
  const ZeroPreCursor := PreCursor(false, JNull, false, "", JNull)

  /** The edge row of a page, as the querier's selector describes it. */
  datatype CursorData = CursorData(id: JsonValue, name: string, value: JsonValue)

  /** What `order.GetCursorKeyName()` and `order.GetStringValue()` return. */
  datatype OrderMethod = OrderMethod(cursorKeyName: string, stringValue: string)

  /**
   * The querier of querier.go: the two fetch functions (each may fail with a
   * message) and the selector giving a row's cursor id and sub-cursor value.
   */
  datatype Querier<!T> = Querier(
    runQueryWithCursorParams: (string, string, Count, string, JsonValue, JsonValue) -> Result<seq<T>, string>,
    runQueryWithLimit: (string, Count) -> Result<seq<T>, string>,
    cursorIdAndValueSelector: (string, T) -> (JsonValue, JsonValue))

  function CreatePreCursor(id: JsonValue, pointsNext: bool, name: string, value: JsonValue): (c: PreCursor)
    ensures c.valid
  {
    PreCursor(true, id, pointsNext, name, value)
  }

  // ---------------------------------------------------------------------------
  // The JSON object inside a token: {"id":…,"points_next":…,"sub_cursor_name":…,"sub_cursor":…}
  // (the keys below are the ASCII bytes of `{"id":`, `,"points_next":`, `,"sub_cursor_name":` and `,"sub_cursor":`)

  const IdKey: seq<byte> := [0x7B, 0x22, 0x69, 0x64, 0x22, 0x3A]
  const PointsNextKey: seq<byte> := [0x2C, 0x22, 0x70, 0x6F, 0x69, 0x6E, 0x74, 0x73, 0x5F, 0x6E, 0x65, 0x78, 0x74, 0x22, 0x3A]
  const SubCursorNameKey: seq<byte> := [0x2C, 0x22, 0x73, 0x75, 0x62, 0x5F, 0x63, 0x75, 0x72, 0x73, 0x6F, 0x72, 0x5F, 0x6E, 0x61, 0x6D, 0x65, 0x22, 0x3A]
  const SubCursorKey: seq<byte> := [0x2C, 0x22, 0x73, 0x75, 0x62, 0x5F, 0x63, 0x75, 0x72, 0x73, 0x6F, 0x72, 0x22, 0x3A]

  /** The object of a cursor: its four serialised fields in declaration order, and no whitespace. */
  function MarshalCursor(c: PreCursor): (b: seq<byte>)
    ensures |b| > 0 && b[0] == 0x7B && b[|b| - 1] == CloseBrace
  {
    IdKey + Tail(c, 1)
  }

  function ExpectPrefix(p: seq<byte>, b: seq<byte>): (r: Option<seq<byte>>)
    ensures r.Some? <==> |b| >= |p| && b[..|p|] == p
    ensures r.Some? ==> b == p + r.value
  {
    if |b| >= |p| && b[..|p|] == p then Some(b[|p|..]) else None
  }

  /** Reads back the object `MarshalCursor` writes; the result is never `valid`. */
  function UnmarshalCursor(b: seq<byte>): (r: Option<PreCursor>)
    ensures r.Some? ==> !r.value.valid
  {
    match ExpectPrefix(IdKey, b)
    case None => None
    case Some(rest) => ReadId(rest)
  }

  function ReadId(b: seq<byte>): Option<PreCursor>
  {
    match ParseValue(b)
    case None => None
    case Some((id, rest)) => ReadPointsNext(id, rest)
  }

  function ReadPointsNext(id: JsonValue, b: seq<byte>): Option<PreCursor>
  {
    match ExpectPrefix(PointsNextKey, b)
    case None => None
    case Some(b1) =>
      match ParseBool(b1)
      case None => None
      case Some((pointsNext, rest)) => ReadSubCursorName(id, pointsNext, rest)
  }

  function ReadSubCursorName(id: JsonValue, pointsNext: bool, b: seq<byte>): Option<PreCursor>
  {
    match ExpectPrefix(SubCursorNameKey, b)
    case None => None
    case Some(b1) =>
      match ParseString(b1)
      case None => None
      case Some((name, rest)) => ReadSubCursor(id, pointsNext, name, rest)
  }

  function ReadSubCursor(id: JsonValue, pointsNext: bool, name: string, b: seq<byte>): (r: Option<PreCursor>)
    ensures r.Some? ==> !r.value.valid
  {
    match ExpectPrefix(SubCursorKey, b)
    case None => None
    case Some(b1) =>
      match ParseValue(b1)
      case None => None
      case Some((sub, rest)) =>
        if rest == [CloseBrace] then Some(PreCursor(false, id, pointsNext, name, sub)) else None
  }

  lemma ExpectPrefixAppend(p: seq<byte>, rest: seq<byte>)
    ensures ExpectPrefix(p, p + rest) == Some(rest)
  {
    assert (p + rest)[..|p|] == p;
  }

  /** What `MarshalCursor` writes from the value of field `k` (1 to 4) on: `k` = 1 is the `id` value. */
  function Tail(c: PreCursor, k: nat): (r: seq<byte>)
    requires 1 <= k <= 4
    ensures |r| > 0 && r[|r| - 1] == CloseBrace
    decreases 4 - k
  {
    if k == 4 then SubCursorKey + (SerializeValue(c.subCursor) + [CloseBrace])
    else if k == 3 then SubCursorNameKey + (SerializeString(c.subCursorName) + Tail(c, 4))
    else if k == 2 then PointsNextKey + (SerializeBool(c.cursorPointsNext) + Tail(c, 3))
    else SerializeValue(c.cursorId) + Tail(c, 2)
  }

  lemma ReadSubCursorBack(c: PreCursor)
    ensures ReadSubCursor(c.cursorId, c.cursorPointsNext, c.subCursorName, Tail(c, 4)) == Some(c.(valid := false))
  {
    ExpectPrefixAppend(SubCursorKey, SerializeValue(c.subCursor) + [CloseBrace]);
    ParseSerializeValue(c.subCursor, [CloseBrace]);
  }

  lemma ReadSubCursorNameBack(c: PreCursor)
    ensures ReadSubCursorName(c.cursorId, c.cursorPointsNext, Tail(c, 3)) == Some(c.(valid := false))
  {
    ExpectPrefixAppend(SubCursorNameKey, SerializeString(c.subCursorName) + Tail(c, 4));
    ParseSerializeString(c.subCursorName, Tail(c, 4));
    ReadSubCursorBack(c);
  }

  lemma ReadPointsNextBack(c: PreCursor)
    ensures ReadPointsNext(c.cursorId, Tail(c, 2)) == Some(c.(valid := false))
  {
    ExpectPrefixAppend(PointsNextKey, SerializeBool(c.cursorPointsNext) + Tail(c, 3));
    ParseSerializeBool(c.cursorPointsNext, Tail(c, 3));
    ReadSubCursorNameBack(c);
  }

  /** The fields after the `id` value start with the comma before `points_next`. */
  lemma SecondFieldComma(c: PreCursor)
    ensures |Tail(c, 2)| > 0 && Tail(c, 2)[0] == Comma
  {
    var rest := SerializeBool(c.cursorPointsNext) + Tail(c, 3);
    assert Tail(c, 2) == PointsNextKey + rest;
    assert (PointsNextKey + rest)[0] == PointsNextKey[0];
  }

  lemma ReadIdBack(c: PreCursor)
    ensures ReadId(Tail(c, 1)) == Some(c.(valid := false))
  {
    SecondFieldComma(c);
    assert Tail(c, 1) == SerializeValue(c.cursorId) + Tail(c, 2);
    ParseSerializeValue(c.cursorId, Tail(c, 2));
    ReadPointsNextBack(c);
  }

  /** The JSON layer round-trips every serialised field; `valid` comes back false. */
  lemma UnmarshalMarshal(c: PreCursor)
    ensures UnmarshalCursor(MarshalCursor(c)) == Some(c.(valid := false))
  {
    ExpectPrefixAppend(IdKey, Tail(c, 1));
    ReadIdBack(c);
  }

  // ---------------------------------------------------------------------------
  // The codec

  /** A token: `""` for a cursor that is not valid, else the base64 of its JSON object. */
  function EncodeCursor(c: PreCursor): (s: string)
    ensures s == "" <==> !c.valid
    ensures |s| % 4 == 0
    ensures Base64.Encoded(s)
  {
    if !c.valid then "" else Base64.Encode(MarshalCursor(c))
  }

  /** A token's cursor, or the zero cursor with `ErrFailedDecodeCursor` when it is not base64 of a cursor object. */
  function DecodeCursor(s: string): (r: (PreCursor, Option<Error>))
    ensures r.1.Some? ==> r == (ZeroPreCursor, Some(ErrFailedDecodeCursor))
    ensures r.1.None? <==> Base64.Decode(s).Some? && UnmarshalCursor(Base64.Decode(s).value).Some?
    ensures r.1.None? ==> Some(r.0) == UnmarshalCursor(Base64.Decode(s).value)
    ensures !r.0.valid
  {
    match Base64.Decode(s)
    case None => (ZeroPreCursor, Some(ErrFailedDecodeCursor))
    case Some(b) =>
      match UnmarshalCursor(b)
      case None => (ZeroPreCursor, Some(ErrFailedDecodeCursor))
      case Some(c) => (c, None)
  }

  /** Decoding a token gives back every serialised field of the cursor it was made from. */
  lemma CursorRoundTrip(c: PreCursor)
    requires c.valid
    ensures DecodeCursor(EncodeCursor(c)) == (c.(valid := false), None)
  {
    Base64.RoundTrip(MarshalCursor(c));
    UnmarshalMarshal(c);
  }

  /** Appending "invalid" to any token the pager hands out (or to `""`) makes it undecodable. */
  lemma CorruptedCursor(c: PreCursor)
    ensures DecodeCursor(EncodeCursor(c) + "invalid") == (ZeroPreCursor, Some(ErrFailedDecodeCursor))
  {
    var s := EncodeCursor(c);
    NoLineBreaks(s);
    Base64.StripNewlinesIdentity(s);
    InvalidSuffix();
    Base64.AppendBreaksQuanta(s, "invalid");
  }

  lemma NoLineBreaks(s: string)
    requires Base64.Encoded(s)
    ensures forall i :: 0 <= i < |s| ==> s[i] != '\r' && s[i] != '\n'
  {
  }

  lemma InvalidSuffix()
    ensures |"invalid"| % 4 == 3
    ensures forall i :: 0 <= i < |"invalid"| ==> "invalid"[i] != '\r' && "invalid"[i] != '\n'
  {
  }

  function GeneratePager(next: PreCursor, prev: PreCursor): (r: CursorPaginationAttribute)
    ensures r.nextCursor == "" <==> !next.valid
    ensures r.prevCursor == "" <==> !prev.valid
  {
    CursorPaginationAttribute(EncodeCursor(next), EncodeCursor(prev))
  }

  // ---------------------------------------------------------------------------
  // The calculator

  /** The cursor a token built from `d` decodes to. */
  function CursorOf(d: CursorData, pointsNext: bool): PreCursor
  {
    PreCursor(false, d.id, pointsNext, d.name, d.value)
  }

  /**
   * The decision table of lines 95-116: which tokens exist. What each token
   * carries is `CalculatePaginationTokens`.
   */
  function CalculatePagination(
    isFirstPage: bool, hasPagination: bool, pointsNext: bool, firstData: CursorData, lastData: CursorData)
    : (r: CursorPaginationAttribute)
    ensures isFirstPage ==> r.prevCursor == "" && (r.nextCursor != "" <==> hasPagination)
    ensures !isFirstPage && pointsNext ==> r.prevCursor != "" && (r.nextCursor != "" <==> hasPagination)
    ensures !isFirstPage && !pointsNext ==> r.nextCursor != "" && (r.prevCursor != "" <==> hasPagination)
  {
    var nextCur := CreatePreCursor(lastData.id, true, lastData.name, lastData.value);
    var prevCur := CreatePreCursor(firstData.id, false, firstData.name, firstData.value);
    if isFirstPage then
      if hasPagination then GeneratePager(nextCur, ZeroPreCursor) else NoPages
    else if pointsNext then
      GeneratePager(if hasPagination then nextCur else ZeroPreCursor, prevCur)
    else
      GeneratePager(nextCur, if hasPagination then prevCur else ZeroPreCursor)
  }

  /** The token a page emits to resume from `d`; it is never empty. */
  function Token(d: CursorData, pointsNext: bool): (t: string)
    ensures t != ""
  {
    EncodeCursor(CreatePreCursor(d.id, pointsNext, d.name, d.value))
  }

  /** A token decodes back to `d` with the given direction; with "invalid" appended it no longer decodes. */
  lemma TokenDecodes(d: CursorData, pointsNext: bool)
    ensures DecodeCursor(Token(d, pointsNext)) == (CursorOf(d, pointsNext), None)
    ensures DecodeCursor(Token(d, pointsNext) + "invalid") == (ZeroPreCursor, Some(ErrFailedDecodeCursor))
  {
    var c := CreatePreCursor(d.id, pointsNext, d.name, d.value);
    CursorRoundTrip(c);
    CorruptedCursor(c);
  }

  /** A next token resumes forward from `lastData`, a previous token backward from `firstData`. */
  lemma CalculatePaginationTokens(
    isFirstPage: bool, hasPagination: bool, pointsNext: bool, firstData: CursorData, lastData: CursorData)
    ensures var r := CalculatePagination(isFirstPage, hasPagination, pointsNext, firstData, lastData);
      && (r.nextCursor != "" ==> r.nextCursor == Token(lastData, true))
      && (r.prevCursor != "" ==> r.prevCursor == Token(firstData, false))
  {
  }

  // ---------------------------------------------------------------------------
  // The orchestrator, specified step by step

  /** What an incoming token asks for. */
  datatype Request = FirstPage | Follow(cursor: PreCursor)

  /** Any token that is empty, undecodable or made for another order is a first-page request. */
  function ClassifyRequest(token: string, keyName: string): (r: Request)
    ensures r == FirstPage <==>
      token == "" || DecodeCursor(token).1.Some? || DecodeCursor(token).0.subCursorName != keyName
    ensures r.Follow? ==> DecodeCursor(token) == (r.cursor, None) && r.cursor.subCursorName == keyName
  {
    if token == "" then FirstPage
    else
      var (c, err) := DecodeCursor(token);
      if err.Some? || c.subCursorName != keyName then FirstPage else Follow(c)
  }

  function Direction(pointsNext: bool): string
  {
    if pointsNext then "next" else "prev"
  }

  /** The querier call a request leads to, asking for one row more than the limit. */
  function Fetch<T>(q: Querier<T>, order: OrderMethod, limit: int, req: Request): Result<seq<T>, Error>
    requires 1 <= limit < MaxInt32
  {
    match req
    case FirstPage =>
      (match q.runQueryWithLimit(order.stringValue, limit + 1)
       case Success(rows) => Success(rows)
       case Failure(e) => Failure(QueryFailed(NumberedQueryContext, e)))
    case Follow(c) =>
      match q.runQueryWithCursorParams(order.cursorKeyName, order.stringValue, limit + 1,
        Direction(c.cursorPointsNext), c.cursorId, c.subCursor)
      case Success(rows) => Success(rows)
      case Failure(e) => Failure(QueryFailed(CursorQueryContext, e))
  }

  function Min(a: int, b: int): int
  {
    if a < b then a else b
  }

  /** A row as its selector describes it, for cursors of the order keyed `keyName`. */
  function Edge<T>(q: Querier<T>, keyName: string, row: T): CursorData
  {
    var (id, value) := q.cursorIdAndValueSelector(keyName, row);
    CursorData(id, keyName, value)
  }

  /** A first page or a forward page keeps the fetch order; a backward page is fetched in reverse. */
  predicate Forward(req: Request)
  {
    req.FirstPage? || req.cursor.cursorPointsNext
  }

  /**
   * The page information for the trimmed `page` fetched for `req`, where
   * `hasPagination` tells whether the fetch found a row beyond it; what its
   * tokens carry is `PageInfoTokens`.
   */
  function PageInfo<T>(q: Querier<T>, keyName: string, req: Request, page: seq<T>, hasPagination: bool)
    : (r: CursorPaginationAttribute)
    requires |page| > 0
    ensures req.FirstPage? ==> r.prevCursor == ""
    ensures r.nextCursor != "" <==> hasPagination || !Forward(req)
    ensures r.prevCursor != "" <==> req.Follow? && (Forward(req) || hasPagination)
  {
    var first := Edge(q, keyName, page[0]);
    var last := Edge(q, keyName, page[|page| - 1]);
    if Forward(req) then
      CalculatePagination(req.FirstPage?, hasPagination, req.Follow? && req.cursor.cursorPointsNext, first, last)
    else
      CalculatePagination(false, hasPagination, false, last, first)
  }

  /**
   * The next token resumes after the page's last row in the order's own
   * direction (the shown last row going forward, the shown first row going
   * backward); the previous token resumes before the other end.
   */
  lemma PageInfoTokens<T>(q: Querier<T>, keyName: string, req: Request, page: seq<T>, hasPagination: bool)
    requires |page| > 0
    ensures var r := PageInfo(q, keyName, req, page, hasPagination);
      && (r.nextCursor != "" ==>
            r.nextCursor == Token(Edge(q, keyName, if Forward(req) then page[|page| - 1] else page[0]), true))
      && (r.prevCursor != "" ==>
            r.prevCursor == Token(Edge(q, keyName, if Forward(req) then page[0] else page[|page| - 1]), false))
  {
    var first := Edge(q, keyName, page[0]);
    var last := Edge(q, keyName, page[|page| - 1]);
    if Forward(req) {
      CalculatePaginationTokens(req.FirstPage?, hasPagination, req.Follow? && req.cursor.cursorPointsNext, first, last);
    } else {
      CalculatePaginationTokens(false, hasPagination, false, last, first);
    }
  }

  /**
   * Everything `GetCursorData` returns: the rows, the page information and the
   * error. A decode failure never surfaces; a querier failure is wrapped; an
   * empty fetch is `ErrDataNoRecord`; otherwise the first `limit` fetched rows,
   * in fetch order.
   */
  function CursorDataOutcome<T>(q: Querier<T>, token: string, order: OrderMethod, limit: int)
    : (r: (seq<T>, CursorPaginationAttribute, Option<Error>))
    requires 1 <= limit < MaxInt32
    ensures r.2 != Some(ErrFailedDecodeCursor)
    ensures r.2.Some? ==> r.0 == [] && r.1 == NoPages
    ensures r.2.None? ==> 1 <= |r.0| <= limit
  {
    var req := ClassifyRequest(token, order.cursorKeyName);
    match Fetch(q, order, limit, req)
    case Failure(e) => ([], NoPages, Some(e))
    case Success(rows) =>
      if rows == [] then ([], NoPages, Some(ErrDataNoRecord))
      else
        var page := rows[..Min(|rows|, limit)];
        (page, PageInfo(q, order.cursorKeyName, req, page, |rows| > limit), None)
  }

  /**
   * The three outcomes: a querier error comes back wrapped, an empty fetch is
   * `ErrDataNoRecord`, and otherwise the rows are the first `limit` fetched,
   * in fetch order, with no re-sort.
   */
  lemma OutcomeCases<T>(q: Querier<T>, token: string, order: OrderMethod, limit: int)
    requires 1 <= limit < MaxInt32
    ensures var r := CursorDataOutcome(q, token, order, limit);
      var req := ClassifyRequest(token, order.cursorKeyName);
      match Fetch(q, order, limit, req)
      case Failure(e) => r.2 == Some(e) && e.QueryFailed?
      case Success(rows) =>
        && (rows == [] <==> r.2 == Some(ErrDataNoRecord))
        && (rows != [] ==> r.2 == None && r.0 == rows[..Min(|rows|, limit)]
                           && r.1 == PageInfo(q, order.cursorKeyName, req, r.0, |rows| > limit))
  {
  }

  /**
   * A token the pager hands out, given back for the same order, is a request
   * to resume from the row it was made from; corrupted, it is a first-page request.
   */
  lemma TokenRequest(d: CursorData, pointsNext: bool, keyName: string)
    requires d.name == keyName
    ensures ClassifyRequest(Token(d, pointsNext), keyName) == Follow(CursorOf(d, pointsNext))
    ensures ClassifyRequest(Token(d, pointsNext) + "invalid", keyName) == FirstPage
  {
    TokenDecodes(d, pointsNext);
  }

  /**
   * A first page: the first `limit` fetched rows, no previous token, and a
   * next token exactly when a row beyond the page was fetched, resuming after
   * the page's last row.
   */
  lemma FirstPageOutcome<T>(q: Querier<T>, token: string, order: OrderMethod, limit: int, rows: seq<T>)
    requires 1 <= limit < MaxInt32
    requires ClassifyRequest(token, order.cursorKeyName) == FirstPage
    requires Fetch(q, order, limit, FirstPage) == Success(rows) && rows != []
    ensures var r := CursorDataOutcome(q, token, order, limit);
      var page := rows[..Min(|rows|, limit)];
      && r.0 == page && r.2 == None && r.1.prevCursor == ""
      && (r.1.nextCursor != "" <==> |rows| > limit)
      && (|rows| > limit ==> r.1.nextCursor == Token(Edge(q, order.cursorKeyName, page[|page| - 1]), true))
  {
    OutcomeCases(q, token, order, limit);
    var page := rows[..Min(|rows|, limit)];
    PageInfoTokens(q, order.cursorKeyName, FirstPage, page, |rows| > limit);
  }

  /**
   * A forward page: the first `limit` fetched rows, a previous token that
   * resumes before its first row, and a next token exactly when a row beyond
   * the page was fetched, resuming after its last row.
   */
  lemma ForwardOutcome<T>(q: Querier<T>, token: string, order: OrderMethod, limit: int, c: PreCursor, rows: seq<T>)
    requires 1 <= limit < MaxInt32
    requires ClassifyRequest(token, order.cursorKeyName) == Follow(c) && c.cursorPointsNext
    requires Fetch(q, order, limit, Follow(c)) == Success(rows) && rows != []
    ensures var r := CursorDataOutcome(q, token, order, limit);
      var page := rows[..Min(|rows|, limit)];
      && r.0 == page && r.2 == None
      && r.1.prevCursor == Token(Edge(q, order.cursorKeyName, page[0]), false) && r.1.prevCursor != ""
      && (r.1.nextCursor != "" <==> |rows| > limit)
      && (|rows| > limit ==> r.1.nextCursor == Token(Edge(q, order.cursorKeyName, page[|page| - 1]), true))
  {
    OutcomeCases(q, token, order, limit);
    var page := rows[..Min(|rows|, limit)];
    PageInfoTokens(q, order.cursorKeyName, Follow(c), page, |rows| > limit);
  }

  /**
   * A backward page, in fetch order (nearest row first): a next token that
   * resumes after its first row, and a previous token exactly when a row
   * beyond the page was fetched, resuming before its last row.
   */
  lemma BackwardOutcome<T>(q: Querier<T>, token: string, order: OrderMethod, limit: int, c: PreCursor, rows: seq<T>)
    requires 1 <= limit < MaxInt32
    requires ClassifyRequest(token, order.cursorKeyName) == Follow(c) && !c.cursorPointsNext
    requires Fetch(q, order, limit, Follow(c)) == Success(rows) && rows != []
    ensures var r := CursorDataOutcome(q, token, order, limit);
      var page := rows[..Min(|rows|, limit)];
      && r.0 == page && r.2 == None
      && r.1.nextCursor == Token(Edge(q, order.cursorKeyName, page[0]), true) && r.1.nextCursor != ""
      && (r.1.prevCursor != "" <==> |rows| > limit)
      && (|rows| > limit ==> r.1.prevCursor == Token(Edge(q, order.cursorKeyName, page[|page| - 1]), false))
  {
    OutcomeCases(q, token, order, limit);
    var page := rows[..Min(|rows|, limit)];
    PageInfoTokens(q, order.cursorKeyName, Follow(c), page, |rows| > limit);
  }

  /**
   * `GetCursorData` as cursorpager.go writes it: check the token (the
   * `cursorCheck` closure), fetch, trim, pick the edge rows and compute the
   * page information, swapping the edges when walking backward.
   */
  method GetCursorData<T>(q: Querier<T>, cursor: string, order: OrderMethod, limit: int)
    returns (data: seq<T>, pageInfo: CursorPaginationAttribute, err: Option<Error>)
    requires 1 <= limit < MaxInt32
    ensures (data, pageInfo, err) == CursorDataOutcome(q, cursor, order, limit)
  {
    err := None;
    var isFirst := cursor == "";
    var pointsNext := false;
    var subCursor := order.cursorKeyName;
    var decodedCursor := ZeroPreCursor;
    var cursorValue := JNull;
    if !isFirst {
      var ok;
      ok, decodedCursor, cursorValue, err := CursorCheck(cursor, subCursor, cursorValue);
      if !ok {
        isFirst := true;
      }
    }
    ghost var req := ClassifyRequest(cursor, subCursor);
    assert req == if isFirst then FirstPage else Follow(decodedCursor);
    var fetched;
    pointsNext, fetched := FetchRows(q, order, limit, isFirst, decodedCursor, cursorValue, req);
    if fetched.Failure? {
      return [], NoPages, Some(fetched.error);
    }
    data := fetched.value;
    if |data| == 0 {
      return [], NoPages, Some(ErrDataNoRecord);
    }
    var rows := data;
    var hasPagination, firstData, lastData;
    data, hasPagination, firstData, lastData := TrimAndSelectEdges(q, subCursor, rows, limit);
    pageInfo := PaginateEdges(isFirst, hasPagination, pointsNext, firstData, lastData, q, subCursor, req, data);
    err := None;
  }

  /**
   * Lines 151-170 of `GetCursorData`: a followed cursor keeps its direction and
   * is resumed from; anything else asks for a first page. Errors are wrapped.
   */
  method FetchRows<T>(q: Querier<T>, order: OrderMethod, limit: int, isFirst: bool, decodedCursor: PreCursor,
    cursorValue: JsonValue, ghost req: Request)
    returns (pointsNext: bool, fetched: Result<seq<T>, Error>)
    requires 1 <= limit < MaxInt32
    requires req == if isFirst then FirstPage else Follow(decodedCursor)
    requires !isFirst ==> cursorValue == decodedCursor.subCursor
    ensures pointsNext == (!isFirst && decodedCursor.cursorPointsNext)
    ensures fetched == Fetch(q, order, limit, req)
  {
    pointsNext := false;
    if !isFirst {
      pointsNext := decodedCursor.cursorPointsNext;
      var cursorDir := if pointsNext then "next" else "prev";
      var id := decodedCursor.cursorId;
      var r := q.runQueryWithCursorParams(order.cursorKeyName, order.stringValue, limit + 1, cursorDir, id, cursorValue);
      if r.Failure? {
        return pointsNext, Failure(QueryFailed(CursorQueryContext, r.error));
      }
      fetched := Success(r.value);
    } else {
      var r := q.runQueryWithLimit(order.stringValue, limit + 1);
      if r.Failure? {
        return pointsNext, Failure(QueryFailed(NumberedQueryContext, r.error));
      }
      fetched := Success(r.value);
    }
  }

  /** Lines 175-198 of `GetCursorData`: trim to the limit and describe the first and last rows kept. */
  method TrimAndSelectEdges<T>(q: Querier<T>, subCursor: string, rows: seq<T>, limit: int)
    returns (data: seq<T>, hasPagination: bool, firstData: CursorData, lastData: CursorData)
    requires 1 <= limit && |rows| > 0
    ensures data == rows[..Min(|rows|, limit)] && |data| > 0
    ensures hasPagination == (|rows| > limit)
    ensures firstData == Edge(q, subCursor, data[0])
    ensures lastData == Edge(q, subCursor, data[|data| - 1])
  {
    data := rows;
    hasPagination := |data| > limit;
    if hasPagination {
      data := data[..limit];
    }
    var eLen := |data|;
    var lastIndex := eLen - 1;
    if lastIndex < 0 {
      lastIndex := 0;
    }
    var (firstId, firstValue) := q.cursorIdAndValueSelector(subCursor, data[0]);
    var (lastId, lastValue) := q.cursorIdAndValueSelector(subCursor, data[lastIndex]);
    firstData := CursorData(firstId, subCursor, firstValue);
    lastData := CursorData(lastId, subCursor, lastValue);
  }

  /** Lines 199-214 of `GetCursorData`: a backward page is described with its edge rows swapped. */
  method PaginateEdges<T>(isFirst: bool, hasPagination: bool, pointsNext: bool, firstData: CursorData,
    lastData: CursorData, ghost q: Querier<T>, ghost subCursor: string, ghost req: Request, ghost page: seq<T>)
    returns (pageInfo: CursorPaginationAttribute)
    requires |page| > 0
    requires isFirst <==> req.FirstPage?
    requires req.Follow? ==> pointsNext == req.cursor.cursorPointsNext
    requires isFirst ==> !pointsNext
    requires firstData == Edge(q, subCursor, page[0])
    requires lastData == Edge(q, subCursor, page[|page| - 1])
    ensures pageInfo == PageInfo(q, subCursor, req, page, hasPagination)
  {
    if pointsNext || isFirst {
      pageInfo := CalculatePagination(isFirst, hasPagination, pointsNext, firstData, lastData);
    } else {
      pageInfo := CalculatePagination(isFirst, hasPagination, pointsNext, lastData, firstData);
    }
  }

  /**
   * The `cursorCheck` closure: decode the token and accept it only when it was
   * made for this order. It writes the decoded cursor and the error always, and
   * the sub-cursor value only on success.
   */
  method CursorCheck(cursor: string, subCursor: string, cursorValue: JsonValue)
    returns (ok: bool, decodedCursor: PreCursor, newCursorValue: JsonValue, err: Option<Error>)
    ensures (decodedCursor, err) == DecodeCursor(cursor)
    ensures ok <==> err.None? && decodedCursor.subCursorName == subCursor
    ensures newCursorValue == if ok then decodedCursor.subCursor else cursorValue
  {
    decodedCursor, err := DecodeCursor(cursor).0, DecodeCursor(cursor).1;
    newCursorValue := cursorValue;
    if err.Some? {
      return false, decodedCursor, newCursorValue, err;
    }
    if decodedCursor.subCursorName != subCursor {
      return false, decodedCursor, newCursorValue, err;
    }
    newCursorValue := decodedCursor.subCursor;
    ok := true;
  }
}
