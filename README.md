# Page splitter and message handlers of a read-only message API

This project models the logic of a small read-only HTTP API that serves an
archive of chat messages from JSON files. Two files hold that logic:

- `utils.py`:
  - `paginate` splits a list into pages of `count` items. It walks the
    items once, fills a buffer, pushes the buffer out when it is full and
    pushes out a non-empty remainder at the end.
  - `science` loads a dictionary of usage counters, adds one to a named
    counter and saves it again.
- `app.py`:
  - `GET /messages` splits all messages into pages of `items` and returns
    the slice `[page-1:page]` of the pages.
  - `GET /messages/{message_id}` scans the messages for the first one with
    that id and returns it, or a 404 reply with a null message.
  - `GET /ping` returns a constant reply.

Module `Utils` (utils.dfy) models `utils.py`:

- `Paginate` is a method with the source's loop and buffer. It is proved
  against `Chunks`, a recursive reference definition of the split.
- The lemmas about `Chunks` state the promises of `paginate`:
  - the pages concatenate back to the input (`Flatten`);
  - no page is empty, and every page but the last holds exactly `count`
    items (`IsPaging`);
  - the number of pages is the ceiling of the length over `count`;
  - a split is fully determined by those rules;
  - page k sits at offset k * count;
  - the doc-comment example holds.
- The counter dictionary of `science` is the class `ScienceCounters`, whose
  method `Science` updates its map field in place.

Module `App` (app.dfy) models the handlers of `app.py`:

- Each handler takes the message list as a parameter and returns a
  `Response` (status, message text, payload).
- The query bounds `1 <= items <= maxItems` and `page >= 1` become
  preconditions. `maxItems` stands for the configured maximum.
- `GetMessage` is a method with the source's scan loop and its early exit.

The `/messages` reply carries only the selected page. It has no page count
and no attachment join.

Defaults follow the source: `Paginate` has `count := 100` and
`debug := false`, and `GetMessages` has `items := 100` and `page := 1`.

## Model

| member | source | states |
|---|---|---|
| Utils.Paginate | utils.py:18-47 | for `count >= 1`, the buffer loop returns pages that concatenate to the input, obey the page-size rules, number ⌈n/count⌉ (none for an empty input), and equal `Chunks(items, count)`; the result does not depend on `debug` |
| Utils.Chunks | utils.py:30-47 | the reference split concatenates back to its input, with nothing lost, duplicated or reordered; no page is empty, no page exceeds `count`, and every page but the last holds exactly `count` |
| Utils.PagingUnique | utils.py:33-45 | any page list that concatenates to `s` and obeys the page-size rules is exactly `Chunks(s, count)` |
| Utils.ChunksCount | utils.py:34-45 | the number of pages is ⌈\|s\|/count⌉; in particular an empty input gives no page at all |
| Utils.ChunksAt | utils.py:34-39 | page k is the run of items from PageStart(count, k) up to the next page start, cut short at the end of the input |
| Utils.PageStartIsProduct | utils.py:35-37 | page k starts after k full pages: PageStart(count, k) == k * count |
| Utils.PaginateDocExample | utils.py:21-26 | the doc example: `[1,2,3,4,5]` with `count=2` splits into `[[1,2],[3,4],[5]]` |
| Utils.Incremented | utils.py:13 | after one event, `metric` maps to its old count + 1, or to 1 if it was absent; the key set gains only `metric`; every other key keeps its count |
| Utils.ScienceCounters.Science | utils.py:9-16 | the in-place update leaves the counters equal to `Incremented(old counters, metric)` |
| App.Slice | app.py:23 | Python's `s[lo:hi]` for `0 <= lo <= hi`: the length is cut back at the end of `s`, and element k is `s[lo + k]` |
| App.GetMessages | app.py:16-30 | status 200 and "OK"; the payload holds at most one page; it is `[pages[page-1]]` when `page` is at most the number of pages and `[]` past the last page; any page it holds has 1..items messages |
| App.GetMessagesPage | app.py:21-23 | the payload is non-empty exactly when `page <= ⌈n/items⌉`, and then it is the messages from PageStart(items, page-1) to the end of that page |
| App.GetMessagesExample | app.py:21-23 | with five stored messages, `items=2&page=1` returns the first two messages, and there are three pages |
| App.GetMessage | app.py:33-47 | status 200 exactly when some message has the id; the payload is then the first such message in list order; otherwise the reply is 404, the fixed error text and a null message |
| App.Ping | app.py:50-52 | always status 200, "pong", and no payload |

## Left out

- File I/O: `utils.get_messages` and the load and save around the counter update in `science` are left out. The message list and the counter map are inputs.
- `get_statistics` is left out because it reads the wall clock.
- The FastAPI wiring is left out: the app object, route decorators, `Query` validation (its bounds are preconditions), `JSONResponse` and the `__main__` block.
- config.py is not part of this model. `MAX_ITEMS_PER_PAGE` is the parameter `maxItems`.
- `paginate`'s `logger` callback is a foreign, side-effecting call. `debug` only switches it on, so the model takes `debug` and ignores it.
- `paginate` also accepts a tuple or a set. The model takes a sequence, because a set has no defined order.
- `paginate` with `count <= 0` is excluded by a precondition, because the HTTP layer enforces `items >= 1`.
- Concurrent `science` calls can race in a read-modify-write and lose an increment. This model is sequential and does not capture that.
- JSON numbers that are not integers are not distinguished in `Json`; the handlers only pass such values through.
- Message ids are integers in the model. A record without `"id"` raises `KeyError` in the source, and a string id never equals the integer path parameter. The model has neither case.
- In the source, `if message:` tests a dict for truthiness. A found record always holds `"id"`, so it is non-empty and truthy. The model tests only whether a record was found.
- The message list is an immutable `seq`, so the lookup cannot modify it.
