# Session-backed todo list and weight challenge — a Dafny model

This project models the request handlers of a small Gotham web application:

- the **todo controller** (`src/controllers/todo.rs`): the per-session todo
  list, the `index` handler that renders it, the `add` handler that parses a
  form body and appends the submitted `item`, the `reset` handler that drops
  the session, and the hand-written form-body parser `ugly_form_body_parser`;
- the **challenge controller** (`src/controllers/challenge.rs`): the greeting
  page built from the `name` path segment and the optional `u8` query value
  `count`.

Files:

- `text.dfy` — module `Text`: Rust's `str::split` on a one-character pattern
  (`Split`, built on `IndexOf`), its inverse `Join`, and the substring relation
  `IsInfix` used to say that parsed text is taken verbatim.
- `form_body.dfy` — module `FormBody`: the parser as the method
  `ParseFormBody`, which fills a map piece by piece as `extend` does, proved
  equal to the function `FormData`; lemmas on which pieces are kept, what a
  key and a value are, which duplicate wins and that nothing is decoded.
- `todo.dfy` — module `Todo`: `index_body` as the method `IndexBody`, whose
  list section is grown in a loop by `AppendListSection`, proved equal to
  `Page`; a reader `ParseSection` that recovers the list from the rendered
  section; the class
  `TodoSession` whose field `todoList` is the session's list, with the
  handlers `Index`, `Add` and `Reset` as methods.
- `challenge.dfy` — module `Challenge`: the `match` on `count` (`Greeting`),
  the response (`Index`), decimal printing of `count + 1` with its reader,
  and lemmas on what the page states.
- `http.dfy`, `wrappers.dfy` — the response fields the handlers set
  (status, `Content-Type`, `Location`, body) and `Option`/`Result`.

The fixed page texts (the todo page's head and foot, the challenge frame, the
tip and the video) are transcribed as string constants.

Two behaviours of the code worth knowing, both modelled as written:

- `add` does not skip an empty item: it appends whatever follows `item=`, the
  empty text included (`src/controllers/todo.rs:40-42`), and so does
  `TodoSession.Add`.
- The body is not URL-decoded: `+` and `%XX` stay in keys, values and stored
  items (`src/controllers/todo.rs:127-137`).

## Model

| member | source | states |
|---|---|---|
| Text.Split | src/controllers/todo.rs:128 | `str::split` on a one-character pattern always yields at least one piece, even for an empty text; SplitPieces and JoinSplit pin the pieces down completely |
| Text.SplitPieces | src/controllers/todo.rs:128 | splitting on `&` (or `=`) always yields at least one piece, no piece contains the separator, and there are two or more pieces exactly when the text contains the separator — so the parser's second `unwrap` succeeds on every piece the `=` filter keeps |
| Text.JoinSplit | src/controllers/todo.rs:128 | splitting loses nothing: the pieces rejoined with the separator give back the original body |
| Text.SplitPieceIsInfix | src/controllers/todo.rs:128 | every piece is a contiguous, unaltered part of the body |
| FormBody.Key | src/controllers/todo.rs:131-133 | the first `unwrap` (`iter.next()` on `p.split("=")`) gives the text before the first `=`: a prefix of the piece, followed there by `=`, holding no `=` itself |
| FormBody.Value | src/controllers/todo.rs:128-133 | the second `unwrap` gives a piece of the split free of `=`; it exists on every piece the `contains("=")` filter keeps, which is the precondition |
| FormBody.PieceShape | src/controllers/todo.rs:132-133 | a kept piece reads `key=value` then either nothing or a second `=`; the key is the text before the first `=`, the value the text up to the next `=`, neither holds `=`, and anything after a second `=` is discarded |
| FormBody.FormData | src/controllers/todo.rs:127-137 | the parser's result has no more entries than the body has `&`-pieces, and no key or value holds `=` |
| FormBody.ParseFormBody | src/controllers/todo.rs:127-137 | the loop that inserts the pairs of the kept pieces in body order produces exactly `FormData(body)` |
| FormBody.AbsorbKeys | src/controllers/todo.rs:128-134 | a key is in the map if and only if some `&`-piece containing `=` has that key; pieces without `=` contribute nothing |
| FormBody.LaterWins | src/controllers/todo.rs:129-134 | when no later kept piece repeats a piece's key, the map holds that piece's value: a repeated key keeps the value of its last occurrence |
| FormBody.AbsorbLast | src/controllers/todo.rs:129-134 | conversely, every entry of the map is the key and value of a kept piece that no later kept piece overrides |
| FormBody.EmptyBody | src/controllers/todo.rs:128-133 | an empty body yields an empty map |
| FormBody.SinglePair | src/controllers/todo.rs:127-137 | a body `key=value`, with neither part holding `&` or `=`, parses to exactly the one pair, so `+` and `%XX` escapes are kept as they are |
| FormBody.SecondEqualsDropped | src/controllers/todo.rs:132-133 | a one-piece body `key=value=rest` parses to `key` ↦ `value`: everything from the second `=` on is dropped |
| FormBody.Verbatim | src/controllers/todo.rs:127-137 | every key and every value returned is a contiguous substring of the body containing neither `&` nor `=`: nothing is decoded |
| Todo.ItemsAppend | src/controllers/todo.rs:88-91 | rendering a list of entries distributes over list concatenation: entries appear in list order |
| Todo.ListSection | src/controllers/todo.rs:86-93 | the list section is empty exactly when the list is empty |
| Todo.AppendListSection | src/controllers/todo.rs:86-93 | the loop extends the text with `<ul>`, one `<li>` entry per item in list order and `</ul>`, and adds nothing for an empty list: the text becomes the prefix followed by the list section |
| Todo.Page | src/controllers/todo.rs:69-114 | the page `index_body` returns has the list section exactly between the fixed head and the fixed foot |
| Todo.IndexBody | src/controllers/todo.rs:69-114 | the text grown by the loop is the fixed head, then the list section, then the fixed foot |
| Todo.ItemsRoundTrip | src/controllers/todo.rs:88-91 | for items without `<`, the rendered `<li>…</li>` run reads back as exactly the list, item by item and in order |
| Todo.PageRoundTrip | src/controllers/todo.rs:69-114 | for items without `<`, cutting the fixed head and foot off the page and reading the section gives back the list |
| Todo.SectionRoundTrip | src/controllers/todo.rs:86-93 | for items without `<`, the section reads back as the list: no `<ul>` for the empty list, otherwise one `<ul>`…`</ul>` with one entry per item in order |
| Todo.MarkupInjection | src/controllers/todo.rs:83-93 | items are inserted unescaped: for all texts `a` and `b`, the one item `a</li><li>b` renders exactly like the two items `a` and `b` |
| Todo.SubmittedItem | src/controllers/todo.rs:38-40 | `data.get("item")`: a submitted item never holds `=` |
| Todo.SubmittedItemFromPieces | src/controllers/todo.rs:37-40 | a body submits an item exactly when one of its kept pieces has key `item`, and the item is the value of the last such piece (possibly empty) |
| Todo.ItemsAddedAppend | src/controllers/todo.rs:40-42 | the items appended by a run of `add` requests followed by another run are those of the first run then those of the second, in submission order |
| Todo.ItemsAddedBound | src/controllers/todo.rs:40-42 | each `add` body appends at most one item, and every body appends one exactly when each submits an `item` |
| Todo.TodoSession.Index | src/controllers/todo.rs:15-30 | `index` answers 200 `text/html` with the page rendered from the session's list, and changes nothing |
| Todo.TodoSession.Add | src/controllers/todo.rs:33-51 | `add` leaves every earlier item in place and appends the submitted item, if any, at the end; it always answers 303 with `Location: /todo` |
| Todo.TodoSession.Reset | src/controllers/todo.rs:53-61 | after `reset` the next view sees an empty list; it always answers 303 with `Location: /todo` |
| Challenge.Increment | src/controllers/challenge.rs:33 | `count + 1` on a `u8` succeeds exactly for counts below 255 and then is one more; 255 overflows |
| Challenge.Decimal | src/controllers/challenge.rs:32-33 | the printed weight is a non-empty run of decimal digits that starts with `0` only for zero |
| Challenge.DecimalRoundTrip | src/controllers/challenge.rs:32-33 | the printed weight reads back as the number printed |
| Challenge.LiftMessage | src/controllers/challenge.rs:31-34 | the `format!` for a count contains the stated weight in bold and the video, each verbatim |
| Challenge.Html | src/controllers/challenge.rs:51-66 | `html` puts the inner message and the name inside `<strong>`…`</strong>` on the page, each verbatim |
| Challenge.Greeting | src/controllers/challenge.rs:29-41 | a page is produced for every name and count except count 255, on which the increment overflows |
| Challenge.Index | src/controllers/challenge.rs:21-49 | the handler answers 200 `text/html` with the greeting page whenever the count is not 255; it reads only the path and query values |
| Challenge.HtmlCancel | src/controllers/challenge.rs:51-65 | for one name, the page frame determines the inner message |
| Challenge.NameVerbatim | src/controllers/challenge.rs:51-65 | every page served contains the name verbatim inside `<strong>`…`</strong>` |
| Challenge.CountStated | src/controllers/challenge.rs:29-35 | with count `c` below 255 the page contains `<strong>` + the decimal of `c + 1` + ` kgs</strong>` and the video, and that decimal reads back as `c + 1` |
| Challenge.LiftMessageCancel | src/controllers/challenge.rs:32-34 | the message for a count determines the weight it states |
| Challenge.CountDetermined | src/controllers/challenge.rs:29-35 | two counts below 255 giving the same page are equal |
| Challenge.TipDiffers | src/controllers/challenge.rs:31-39 | the tip text differs from every stated-weight message |
| Challenge.TipOnlyWithoutCount | src/controllers/challenge.rs:29-41 | the page without a count (the "more weight than you" text and the `?count=x` tip) differs from the page for every count below 255 |

## Left out

- Routing (`src/boot/router.rs`): route matching, method filtering and the no-match response are done inside the Gotham framework, which is not part of this model.
- The session middleware and store: cookie minting, loading, saving and discarding sessions between requests, and the session identifier. `src/session.rs` is not part of this model; only its `todo_list` field is known.
- Todo.TodoSession.Reset: models `SessionData::discard` only as "the next view sees an empty list"; that the old session identifier stops being honoured and a new one is minted is middleware behaviour not modelled.
- Concurrency between requests on the same or different sessions: framework code.
- `ugly_body_reader`: collecting the request body and its UTF-8 check (which panics on invalid UTF-8) are I/O; the model takes the body as text.
- Parsing the `count` query value into `Option<u8>` (including what happens on an unparsable value) is done by Gotham's extractor; the model takes the parsed value.
- Challenge.Increment: follows Rust's default debug build, where `255 + 1` on a `u8` panics; a release build would wrap to 0 and show `0 kgs`, which is not modelled.
- The headers that Gotham's `create_response` adds besides `Content-Type`, and HEAD requests (same handlers, body not sent).
- `src/lib.rs` (server start-up and logging) and `src/controllers/welcome.rs` (a constant page).
- Rust lifetimes and hash-map iteration order: the parser's result is compared as a map, so order does not matter.
