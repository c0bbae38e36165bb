# cursor-pager, modelled in Dafny

`cursor-pager` is a Go library for cursor-based pagination. A caller hands
`GetCursorData` a querier, an opaque token, an order method and a page size.
It gets back one page of rows and the tokens for the next and the previous
page. A token is the standard base64 encoding of a JSON object
`{"id":…,"points_next":…,"sub_cursor_name":…,"sub_cursor":…}`. The object
describes the row the next call resumes from and the direction it goes.

This project models:

- **the token codec** of `cursorpager.go`. A token is built by JSON
  serialisation, with Go's string escaping and UTF-8, followed by base64
  encoding. It is read back by base64 decoding, which follows Go's non-strict
  `StdEncoding`, and then JSON parsing.
- **the page-information calculator** (`calculatePagination`,
  `generatePager`).
- **the `GetCursorData` orchestrator**: classify the token, fetch one row more
  than the limit, trim, pick the edge rows and compute the tokens. The edges
  are swapped when the page goes backward.
- **the reference querier of the test suite** (`cursorQuerier` over
  `DummyStatuses`): `RetrieveWithCursor`, `RetrieveWithNumbered`, the order
  methods and their cursor keys.
- **the `TestGetCursorData` driver loop**: repeated calls, each following the
  chosen direction's token, optionally corrupted by appending `"invalid"`.

The modules follow the program's layers:

| module | file | what it holds |
|---|---|---|
| `Wrappers` | wrappers.dfy | `Option`, `Result`, `byte` |
| `Utf8` | utf8.dfy | UTF-8 encoding of a character and Go's rune decoding |
| `Base64` | base64.dfy | `StdEncoding` encoding and decoding |
| `Json` | json.dfy | the JSON values that appear in a token, their serialiser and parser |
| `CursorPager` | cursorpager.dfy | cursorpager.go, with querier.go, order.go and error.go as datatypes |
| `Sorting` | sorting.dfy | the stable sort `sort.SliceStable` promises, and a filter |
| `DummyStatuses` | dummystatus.dfy | the test's rows, order methods and querier |
| `ReferenceQuerier` | reference.dfy | what the test querier returns, stated against one canonical order |
| `Traversal` | traversal.dfy | the driver loop and the walks it makes |

`GetCursorData` is written as a method that follows the Go code step by step,
including the `cursorCheck` closure. It is proved equal to the specification
function `CursorDataOutcome`. The lemmas state what that function promises.
The two retrieval loops of the test querier are also methods, proved equal
to specification functions. The driver loop is the method
`TestGetCursorData`, proved equal to `Replay`.

The main results are:

- A token decodes to every serialised field of its cursor
  (`CursorRoundTrip`). Appending `"invalid"` to a token makes it undecodable
  (`CorruptedCursor`). Such a token is then treated as a first-page request
  (`TokenRequest`).
- A page's next token resumes after its last row, and its previous token
  resumes before its first row. On a backward page the edges are swapped,
  as the comment at cursorpager.go:204-212 asks for (`PageInfoTokens`,
  `ForwardOutcome`, `BackwardOutcome`).
- With unique `Pkey`s and a known order method, every page the test querier
  serves is a window of one canonical order: the method's key, with ties
  broken by ascending `Pkey` (`QueryFirst`, `QueryAfter`, `QueryBefore`,
  `ReferenceServes`).
- The whole traversal follows from that:
  1. `PagerSound` shows that `GetCursorData` over a querier serving `s` is
     `Sound` for `s`: each call returns the page at a position and hands out
     the tokens of the neighbouring positions.
  2. `ReplayWalk` and `DriverWalks` show that the driver's run is a walk over
     positions.
  3. `ForwardTraversal` and `ForwardWalk` show that following next tokens from
     the empty token, as the "simple chunk" and "over access" table entries
     do, shows every row once, in order. One call more shows the first page
     again, because the last page hands out an empty next token.
  4. `BackAndForth` and `BackToFirst` show that `k` next calls followed by
     `k` previous calls show the first page again, nearest row first.

## Model

| member | source | states |
|---|---|---|
| CursorPager.CreatePreCursor | cursorpager.go:40-49 | a created cursor is valid |
| CursorPager.GeneratePager | cursorpager.go:51-56 | each token is empty exactly when its cursor is not valid |
| CursorPager.EncodeCursor | cursorpager.go:58-68 | the token is empty exactly for a cursor that is not valid; otherwise it is well-formed base64: its length is a multiple of four and it uses only alphabet and padding characters |
| CursorPager.UnmarshalMarshal | cursorpager.go:62-79 | parsing the JSON object of a cursor gives back every serialised field; `valid` (tagged `json:"-"`) comes back false |
| CursorPager.UnmarshalCursor | cursorpager.go:76-79 | a parsed cursor is never valid |
| CursorPager.DecodeCursor | cursorpager.go:70-81 | decoding succeeds exactly when both the base64 decoding and the JSON parsing succeed, and then gives the parsed cursor; a failure is always the zero cursor with `ErrFailedDecodeCursor`; a decoded cursor is never valid |
| CursorPager.CursorRoundTrip | cursorpager.go:58-81 | decoding the token of a valid cursor gives its fields back with no error |
| CursorPager.CorruptedCursor | cursorpager.go:70-74 | any token the encoder makes, and the empty token, with "invalid" appended fails to decode with `ErrFailedDecodeCursor` |
| CursorPager.CalculatePagination | cursorpager.go:89-118 | the decision table: a first page has no previous token and has a next token exactly when more rows exist; a forward page always has a previous token; a backward page always has a next token |
| CursorPager.Token | cursorpager.go:51-68 | a token made from a row is never empty |
| CursorPager.TokenDecodes | cursorpager.go:58-81 | a row's token decodes to that row's id, key name, value and direction; corrupted, it fails to decode |
| CursorPager.CalculatePaginationTokens | cursorpager.go:95-116 | the next token resumes forward from the last row and the previous token resumes backward from the first row |
| CursorPager.ClassifyRequest | cursorpager.go:128-149 | a token is a first-page request exactly when it is empty, does not decode, or was made for another cursor key; otherwise it is a request to follow its decoded cursor |
| CursorPager.CursorCheck | cursorpager.go:135-145 | the closure accepts exactly a decodable token for this key; it always writes the decoded cursor and error, and updates the sub-cursor value only on acceptance |
| CursorPager.TokenRequest | cursorpager.go:128-149 | a page's own token, given back for the same order, asks to resume from its row; corrupted, it asks for a first page |
| CursorPager.FetchRows | cursorpager.go:151-170 | the step-by-step fetch keeps the cursor's direction and returns what the specification function `Fetch` gives: a followed cursor calls the cursor query with limit+1 in its own direction, anything else the numbered query, and querier errors are wrapped with the call's context |
| CursorPager.TrimAndSelectEdges | cursorpager.go:175-198 | the page is the first `limit` rows; `hasPagination` holds exactly when more were fetched; the edge data describe the page's first and last rows |
| CursorPager.PageInfo | cursorpager.go:199-214 | a next token exists exactly when more rows exist or the page goes backward; a previous token exists exactly when a cursor was followed and the page goes forward or more rows exist |
| CursorPager.PageInfoTokens | cursorpager.go:199-214 | going backward the edges are swapped: the next token resumes from the first row shown and the previous token from the last |
| CursorPager.PaginateEdges | cursorpager.go:199-214 | the step-by-step choice of edge order gives `PageInfo` |
| CursorPager.CursorDataOutcome | cursorpager.go:121-217 | `ErrFailedDecodeCursor` never surfaces; an error comes with no rows and no tokens; a success has between 1 and `limit` rows |
| CursorPager.OutcomeCases | cursorpager.go:161-216 | a querier error is returned wrapped; an empty fetch is exactly the `ErrDataNoRecord` case; otherwise the rows are the first `limit` fetched, in fetch order, with their page information |
| CursorPager.FirstPageOutcome | cursorpager.go:166-202 | a first page has no previous token, and a next token exactly when more rows exist, resuming after its last row |
| CursorPager.ForwardOutcome | cursorpager.go:153-202 | a forward page's previous token resumes before its first row; it has a next token exactly when more rows exist, resuming after its last row |
| CursorPager.BackwardOutcome | cursorpager.go:153-214 | a backward page, in fetch order: the next token resumes after its first row, and it has a previous token exactly when more rows exist, resuming before its last row |
| CursorPager.GetCursorData | cursorpager.go:121-217 | the step-by-step orchestrator returns exactly `CursorDataOutcome` |
| Base64.Encode | cursorpager.go:66 | the encoding is 4·⌈n/3⌉ characters, all from the alphabet or padding |
| Base64.RoundTrip | cursorpager.go:66-71 | decoding an encoding gives back the bytes |
| Base64.AppendBreaksQuanta | cursorpager.go:71-74 | appending a junk suffix of length 3 mod 4 without line breaks to a whole number of quanta makes decoding fail |
| Json.ParseSerializeValue | cursorpager.go:62-77 | parsing a serialised `id` or `sub_cursor` value gives it back and leaves the rest of the input |
| Json.ParseSerializeString | cursorpager.go:62-77 | parsing a serialised string (Go's escaping of quotes, backslashes, control characters, `<`, `>`, `&`, U+2028 and U+2029) gives it back |
| Json.ParseEscapeChar | cursorpager.go:62-77 | each character's escaped form is read back as that character, consuming exactly its bytes |
| Json.ParseSerializeNumber | cursorpager.go:62-77 | parsing a serialised integer gives it back when no digit follows |
| Json.ApostropheEscapeRejected | cursorpager.go:76-79 | a string holding the escape `\'`, which is not a JSON escape and which Go's scanner rejects, does not parse |
| Json.ParseSerializeBool | cursorpager.go:62-77 | parsing `points_next` gives it back |
| Utf8.DecodeEncodeChar | cursorpager.go:62-77 | decoding the UTF-8 encoding of a character gives it back and consumes exactly its bytes |
| DummyStatuses.ParseDummyStatusOrderMethod | pagination_test.go:630-652 | the result is a known method; a known name parses as itself; the empty string and unknown names parse as the default |
| DummyStatuses.ParseKeepsKey | pagination_test.go:630-685 | parsing is idempotent and never changes a name's cursor key |
| DummyStatuses.GetCursorKeyName | pagination_test.go:665-685 | the key is one of the four cursor keys; a method without a key field uses the default key |
| DummyStatuses.ReverseSharesKey | pagination_test.go:665-685 | an order and its `r_` reverse share one key, the order's own name |
| DummyStatuses.RetrieveWithCursor | pagination_test.go:472-624 | the loop's filter, two stable sorts and limit give `CursorQuery` |
| DummyStatuses.OrderNextSorted | pagination_test.go:553-585 | the `next` ordering is sorted by the method's key with ties in ascending `Pkey`, and is a permutation of its input |
| DummyStatuses.OrderPrevSorted | pagination_test.go:586-617 | the `prev` ordering is sorted in exactly the reverse order, and is a permutation of its input |
| DummyStatuses.CursorQueryShape | pagination_test.go:472-624 | the result is a prefix of at most `limit` kept rows in the direction's order, and each of its rows is a row of the data that the filter keeps |
| DummyStatuses.KeepAroundCursor | pagination_test.go:340-551 | with a cursor made from row `c`, the `next` filter keeps exactly the rows after `c` in the canonical order, and the `prev` filter exactly the rows before it |
| DummyStatuses.CursorIDAndValueSelector | pagination_test.go:394-406 | the id is always the `Pkey`; the value is the field the key names, or null for the default or an unknown key |
| DummyStatuses.ParseCursorParams | pagination_test.go:340-370 | the id is taken only from a number and is 0 otherwise; the value fills the parameter the key calls for when it has that parameter's type (a string for `name`; a number for `age`, and for `last_login`, whose time is an integer here), and every other parameter stays at its zero value |
| DummyStatuses.SelectorParams | pagination_test.go:340-406 | reading back the selector's id and value for a row gives its `Pkey` and the field its key names |
| DummyStatuses.RunQueryWithCursorParams | pagination_test.go:333-382 | the cursor query never fails; it returns at most `limit` rows of the data, each kept by the filter for the parameters read back, and no rows for a direction other than `next` and `prev` |
| DummyStatuses.RunQueryWithLimit | pagination_test.go:384-392 | the first page never fails and is the first min(`limit`, row count) rows of the corrected `NumberedOrder` (`NumberedQuery`, not `NumberedQueryAsWritten`; see Findings); for a known method it is sorted by the key with ties in ascending `Pkey`, and for an unknown one it is the rows in input order |
| DummyStatuses.NewCursorQuerier | pagination_test.go:326-331 | the test's querier never reports an error from either query, and the id it selects for a row is the row's `Pkey` |
| DummyStatuses.NewCursorQuerierAsWritten | pagination_test.go:326-392 | the querier with the first-page sort as written has the same cursor query and selector as `NewCursorQuerier`, and its first page is `NumberedQueryAsWritten` |
| DummyStatuses.OrderFor | pagination_test.go:665-689 | a `DummyStatusOrderMethod` passed as an `OrderMethod` has its name as its string value and that name's cursor key |
| DummyStatuses.RetrieveWithNumbered | pagination_test.go:422-469 | the copy, the sort and the reslicing give `NumberedQueryAsWritten` |
| DummyStatuses.PageWindow | pagination_test.go:462-467 | the page is a contiguous window starting at `offset` (or 0 when the offset is past the end) of length min(`limit`, remaining) |
| DummyStatuses.NumberedAgrees | pagination_test.go:432-461 | for data already in `Pkey` order, the sort as written agrees with the corrected one |
| DummyStatuses.NumberedOrderSkipsRow | pagination_test.go:449-509 | a concrete input on which the first page as written puts a row first that the cursor order puts second, and the next page then loses a row |
| ReferenceQuerier.Canonical | pagination_test.go:556-583 | the canonical order is a permutation of the data |
| ReferenceQuerier.CanonicalFacts | pagination_test.go:556-583 | with unique `Pkey`s the canonical order is strictly sorted: no two rows tie |
| ReferenceQuerier.QueryFirst | pagination_test.go:384-392 | the corrected first page (`RunQueryWithLimit`, which `NewCursorQuerier` uses) is the start of the canonical order; as written the first page can differ (see Findings) |
| ReferenceQuerier.QueryAround | pagination_test.go:333-382 | a cursor from row `c` gives the filtered rows in the direction's order, then truncated |
| ReferenceQuerier.QueryAfter | pagination_test.go:333-624 | `next` from a row gives the rows after it in the canonical order |
| ReferenceQuerier.QueryBefore | pagination_test.go:333-624 | `prev` from a row gives the rows before it, nearest first |
| ReferenceQuerier.EmptyRows | cursorpager.go:172-174 | with no rows, every call with every token ends in `ErrDataNoRecord` with no tokens |
| Sorting.SortSorted | pagination_test.go:434-460 | a stable sort by a strict weak order leaves its output sorted |
| Sorting.SortThen | pagination_test.go:556-583 | a stable sort of input sorted by `tie` is sorted by the key and then by `tie`: two `sort.SliceStable` calls in a row |
| Sorting.SortedUnique | pagination_test.go:556-583 | two permutations sorted by one order that is total on them are equal |
| Sorting.FilterPermutation | pagination_test.go:484-551 | filtering two permutations gives permutations |
| Traversal.ReferenceServes | pagination_test.go:321-406 | with unique `Pkey`s and a known method, the test querier serves the canonical order |
| Traversal.Step | cursorpager.go:121-217 | a call with a token standing for a position returns that position's page and hands out exactly the tokens of its neighbours |
| Traversal.PagerSound | cursorpager.go:121-217 | `GetCursorData` over a querier that serves `s` is sound for `s` |
| Traversal.TestGetCursorData | pagination_test.go:287-310 | the driver loop records exactly the pages of `Replay` |
| Traversal.NextCursor | pagination_test.go:300-309 | the next token is the chosen direction's while directions last, with "invalid" appended when `cursorRewrite` says so |
| Traversal.FollowRepresents | pagination_test.go:290-309 | the token for the next turn stands for the position the walk moves to |
| Traversal.ReplayWalk | pagination_test.go:287-310 | a run of a sound pager is the walk over positions |
| Traversal.DriverWalks | pagination_test.go:285-310 | the test's run from the empty token is a walk over the canonical order |
| Traversal.ReferenceServesAsWritten | pagination_test.go:321-406 | for rows already in `Pkey` order, the querier as written serves the canonical order too |
| Traversal.DriverWalksAsWritten | pagination_test.go:285-310 | for rows already in `Pkey` order, the test's run as written from the empty token is the same walk over the canonical order |
| Traversal.ForwardWalk | pagination_test.go:32-61 | a walk that only follows next tokens shows every element once, in order, then the first page again |
| Traversal.ForwardTraversal | pagination_test.go:32-310 | following next tokens from the empty token covers `s` in `PageCount` calls, and one call more shows the first page again |
| Traversal.BackToFirst | pagination_test.go:287-310 | a walk of `k` next pages and then `k` previous pages, with `k·limit` below the row count, shows the first page again, nearest row first |
| Traversal.BackAndForth | pagination_test.go:287-310 | from the empty token, `k` next calls and then `k` previous calls of a sound pager that corrupt no token return the first page's rows again, reversed (the "random access 1" entry at pagination_test.go:142-151 is `k` = 2) |
| Traversal.NextThenPrev | cursorpager.go:199-214 | the previous token of the next page shows the same rows again, nearest first, and its next token leads back to that next page |

## Left out

- DecodeCursor: it is stricter than Go's `json.Unmarshal` on objects the
  pager never writes, because JSON in general is not modelled. Values are
  null, booleans, integers and strings. The parser reads only the canonical
  four-key layout the serialiser writes, so it rejects whitespace, other key
  orders, missing, unknown or duplicate keys, and case-insensitive key
  matches. Go would accept such a forged token. For tokens the pager itself
  hands out this makes no difference (`CursorRoundTrip`). In one respect
  the model accepts more: Go decodes a number into `any` through
  `strconv.ParseFloat`, so a number literal beyond float64's range (such as
  an id of 1 followed by 309 zeros) makes `json.Unmarshal`, and so
  `decodeCursor`, fail, and `GetCursorData` serves the first page. The
  model's `ParseNumber` reads any run of digits and follows such a token.
  `CursorRoundTrip` is therefore stronger than Go for a cursor whose id or
  value is that large, which a custom selector returning a `*big.Int`
  could produce. The test querier's ids are `int32`.
- Numbers are integers, not float64. Go decodes a JSON number into `any` as
  a float64. The `int32(cu)` conversion of a forged id with a fraction, or a
  value out of range, is not modelled.
- `time.Time` and RFC 3339 are not modelled. `LastLogin` is an integer
  stand-in, compared as the integers of the `Before`/`After`/`Equal` calls.
- `json.Marshal` failing (cursorpager.go:63-65) is not modelled. It cannot
  fail for the values modelled here.
- `GetCursorData` and the traversal lemmas require 1 <= `limit` < 2^31-1.
  - A limit of 0 makes `data[0]` panic once a row is fetched.
  - A negative limit makes the reslice panic.
  - A limit of 2^31-1 wraps `limit+1` to a negative `int32`.
- The traversal theorems (`ReplayWalk`, `DriverWalks`) assume that
  `cursorRewrite` is no longer than `dirs`, which every table entry satisfies.
  They also cover only known order methods and unique `Pkey`s.
- An error in the driver loop is only reported through `t.Errorf` and does not
  stop the loop. The model records the rows the same way and drops the
  report.
- The rest of the test harness is not modelled:
  - `t.Parallel` and `t.Helper`;
  - golden files, `testutils`, and the JSON marshalling of results.
- Slice aliasing is not modelled: rows are values. `append(result, d...)` is a
  copy in the source too.
- Backward pages are modelled in fetch order (nearest row first). This
  follows the code: `GetCursorData` returns `data` without re-sorting it
  (cursorpager.go:216).
- querier.go and order.go are Go interfaces. They are modelled as datatypes
  of functions, and the querier's calls are pure.
- `DummyStatuses.RunQueryWithLimit` serves the corrected first-page ordering
  (see Findings). The traversal theorems are stated about that querier. For
  rows already in `Pkey` order, `DriverWalksAsWritten` carries them over to
  the querier as written (`NewCursorQuerierAsWritten`).

## Findings

| source | as written | input that shows it | evidently intended | confidence | as-written member | corrected member |
|---|---|---|---|---|---|---|
| pagination_test.go:432-461 | `RetrieveWithNumbered` sorts a keyed method by its key alone, so rows with equal keys keep their input order | rows (pkey 2, age 20), (pkey 1, age 20), order `age`, `GetCursorData` limit 1: the first page shows pkey 2; the `next` query after pkey 2 keeps only rows with age > 20 or pkey > 2, so pkey 1 is never shown | sort by `Pkey` first, as `RetrieveWithCursor` does (pagination_test.go:556-558), so the first page is the start of the same order the cursor query resumes in | not executed | DummyStatuses.NumberedOrderSkipsRow | ReferenceQuerier.QueryFirst |
