# cloud-project: backend state and dashboard data shaping, in Dafny

This project models the two places of the cloud-project demo where behaviour can be stated and checked:

- **The backend's in-memory state** (`backend/app.js`): a per-process visit counter that starts at 0 and that `GET /visit` bumps by one, and an append-only memo list that `POST /memo` extends and `GET /memo` returns. `Backend.Server` is a class with these two fields and one method per route. `Backend.Handle` is the same transition as a pure function on a `State` value, so that lemmas can reason about whole request sequences (`Backend.Run`).
- **The dashboard's client-side data shaping** (`frontend/src/LoadBalanceDashboard.jsx`):
  - the traffic pivot of `loadTraffic` (`Traffic.Pivot`, a loop over the rows, specified by `Traffic.Pivoted`);
  - the chart's series keys `trafficServerKeys` (`Traffic.ServerKeys`);
  - the `setServers` updater that counts hits per responding server (`HitTable.RecordVisit`);
  - the blank-input guard of `saveMemo` (`MemoInput.SaveMemo`, with `String.prototype.trim` written out in `MemoInput.Trim`).

A plain JavaScript object is modelled as its string keys in insertion order plus its properties (`Traffic.Record`, `Traffic.Table`). `Object.values`, `Object.keys` and `new Set(...)` then keep first-insertion order, which `InsertionOrder.Dedup` defines once for both the pivot and the series keys. The pivot is modelled without a precondition. A row whose hostname is `"minute"` overwrites the record's minute label, as the code does. The lemmas state the label only when no hostname is `"minute"`.

Facts of the modelled code worth knowing:
- `POST /memo` stores any content, including the empty string and a missing `content`, and always replies `{ ok: true }`.
- `GET /memo` returns the memos oldest first.
- `GET /visit` replies with `visit_count` only. The dashboard's updater also reads `server` and `time` from that reply. Against this backend those are `undefined`, so every hit lands under the key `"undefined"`. `HitTable.RecordVisit` takes the key as a string, so that case is the call with server `"undefined"`.
- `POST /uploadPhoto` only replies with a fixed placeholder message and stores nothing.

## Model

| member | source | states |
|---|---|---|
| Backend.Server.constructor | cloud-project/backend/app.js:6-7 | the process starts with visit counter 0 and an empty memo list |
| Backend.Server.Root | cloud-project/backend/app.js:9-11 | `GET /` replies with the fixed liveness text and changes no state |
| Backend.Server.Visit | cloud-project/backend/app.js:13-16 | `GET /visit` raises the counter by exactly one, replies with the new value, and leaves the memos unchanged |
| Backend.Server.PostMemo | cloud-project/backend/app.js:18-22 | `POST /memo` appends exactly one memo (the content as given, with its timestamp) at the end, keeps every earlier memo, leaves the counter unchanged, and always replies ok |
| Backend.Server.GetMemo | cloud-project/backend/app.js:24-26 | `GET /memo` replies with the stored memo list in insertion order and changes no state |
| Backend.Server.UploadPhoto | cloud-project/backend/app.js:28-30 | `POST /uploadPhoto` replies with the placeholder message and changes no state |
| Backend.Server.Serve | cloud-project/backend/app.js:9-30 | routing a request to its handler has exactly the effect and reply that `Handle` gives for it |
| Backend.Handle | cloud-project/backend/app.js:13-30 | only `/visit` changes the counter (by +1) and only `POST /memo` changes the memo list (appending one entry, no content check); each route's reply |
| Backend.Run | cloud-project/backend/app.js:13-30 | serving any request sequence never lowers the counter and keeps the old memo list as a prefix |
| Backend.RunCountsVisits | cloud-project/backend/app.js:13-16 | after any request sequence the counter equals its old value plus the number of `/visit` requests |
| Backend.RunAppendsMemos | cloud-project/backend/app.js:18-22 | after any request sequence the memo list is the old list followed by the posted memos in request order |
| Backend.CounterMonotoneMemosAppendOnly | cloud-project/backend/app.js:13-22 | the counter never decreases, and an earlier memo list is always a prefix of a later one |
| Backend.NVisitsFromStart | cloud-project/backend/app.js:6-16 | from process start, N visits leave the counter at N |
| Backend.VisitReplyNumbersVisits | cloud-project/backend/app.js:13-16 | from process start, the reply to a `/visit` is the number of visits served so far, this one included |
| Backend.GetMemoListsPostedOldestFirst | cloud-project/backend/app.js:18-26 | from process start, `GET /memo` returns every memo posted before it, oldest first |
| InsertionOrder.FirstIndex | cloud-project/frontend/src/LoadBalanceDashboard.jsx:74-80 | the index returned holds the element and no earlier position does |
| InsertionOrder.Dedup | cloud-project/frontend/src/LoadBalanceDashboard.jsx:74-80 | each distinct element exactly once, nothing else, in order of first occurrence (how a JavaScript `Set` or an object's keys keep insertion order) |
| Traffic.Assign | cloud-project/frontend/src/LoadBalanceDashboard.jsx:61 | property assignment sets the value; an existing key keeps its place and a new key goes last; a well-formed record (distinct keys, "minute" first) stays well formed |
| Traffic.NewRecord | cloud-project/frontend/src/LoadBalanceDashboard.jsx:60 | a fresh record is well formed, has the single key "minute", and that key holds the minute label |
| Traffic.Absorb | cloud-project/frontend/src/LoadBalanceDashboard.jsx:59-61 | one loop iteration: a first-seen minute is appended to the key order; its minute's record becomes the old record (or a fresh `{ minute }` record) with only the row's server set to the row's count; every other minute's record is unchanged |
| Traffic.Build | cloud-project/frontend/src/LoadBalanceDashboard.jsx:57-62 | `byMinute` has a record for exactly the minutes in its key order |
| Traffic.Pivot | cloud-project/frontend/src/LoadBalanceDashboard.jsx:57-63 | the pivot loop returns `Pivoted(rows)`, the loop body folded over the rows; what that value means is proved in `BuildMatches` |
| Traffic.LastCount | cloud-project/frontend/src/LoadBalanceDashboard.jsx:58-61 | absent exactly when no row has the (minute, server) pair; otherwise the count of the last row with that pair |
| Traffic.BuildMatches | cloud-project/frontend/src/LoadBalanceDashboard.jsx:57-62 | after the loop, the minute keys are the distinct minutes in first-occurrence order, and each record holds exactly "minute" plus the servers paired with its minute, with last-write-wins counts |
| Traffic.Pivoted | cloud-project/frontend/src/LoadBalanceDashboard.jsx:57-63 | `Object.values(byMinute)` after the loop (line 63): the chart data has one record per distinct minute, record i being that of the i-th distinct minute in first-occurrence order, and each record holds exactly what the last-write-wins specification (`RecordMatches`, via `BuildMatches`) says |
| Traffic.PivotOneRecordPerMinute | cloud-project/frontend/src/LoadBalanceDashboard.jsx:57-63 | for every input: one record per distinct input minute, none twice, in order of first occurrence, each with a `minute` field; when no hostname is "minute", that field equals the record's minute |
| Traffic.PivotLastWriteWins | cloud-project/frontend/src/LoadBalanceDashboard.jsx:58-61 | a server key is in a minute's record iff some row pairs it with that minute, and its value is the `cnt` of the last such row |
| Traffic.ServerKeysOf | cloud-project/frontend/src/LoadBalanceDashboard.jsx:77 | the keys of one record other than "minute" |
| Traffic.KeyStream | cloud-project/frontend/src/LoadBalanceDashboard.jsx:76-78 | the flat list holds exactly the non-"minute" keys of the records |
| Traffic.ServerKeys | cloud-project/frontend/src/LoadBalanceDashboard.jsx:74-80 | every non-"minute" key of every record exactly once, nothing else, in order of first appearance |
| Traffic.RecordHostHasRow | cloud-project/frontend/src/LoadBalanceDashboard.jsx:57-63 | every host key of a pivoted record was named by some fetched row (the pivot invents no series) |
| Traffic.RowHostInRecord | cloud-project/frontend/src/LoadBalanceDashboard.jsx:57-63 | the host of every fetched row (other than "minute") is a key of the pivoted record whose minute is that row's minute (no row is dropped or filed under another minute) |
| Traffic.HostInSomeRecord | cloud-project/frontend/src/LoadBalanceDashboard.jsx:57-80 | a hostname other than "minute" is a key of some pivoted record iff some row names it |
| Traffic.PivotServerKeys | cloud-project/frontend/src/LoadBalanceDashboard.jsx:57-80 | the chart's series keys after the pivot are exactly the hostnames (other than "minute") of the traffic rows |
| HitTable.RecordVisit | cloud-project/frontend/src/LoadBalanceDashboard.jsx:107-121 | (lines 108-112 give the default for an unseen server) the responding server's hits become its previous hits (0 if unseen) plus 1, with the reply's visit count and time; no entry is removed and every other entry is unchanged |
| HitTable.Replay | cloud-project/frontend/src/LoadBalanceDashboard.jsx:107-121 | after the updater has run once per reply from an empty table, every entry has at least one hit and no more hits than there were replies |
| HitTable.ReplayCountsHits | cloud-project/frontend/src/LoadBalanceDashboard.jsx:107-121 | from an empty table, a server has an entry iff some reply came from it, its hits equal the number of its replies, and its last visit count and time are those of its latest reply |
| MemoInput.IsTrimSpace | cloud-project/frontend/src/LoadBalanceDashboard.jsx:163 | the characters `trim` strips, all in the Basic Multilingual Plane |
| MemoInput.LeadingSpace | cloud-project/frontend/src/LoadBalanceDashboard.jsx:163 | the number of leading white-space characters that `trim` removes, stopping at the first other character |
| MemoInput.TrailingSpace | cloud-project/frontend/src/LoadBalanceDashboard.jsx:163 | the number of trailing white-space characters that `trim` removes, stopping at the last other character |
| MemoInput.Trim | cloud-project/frontend/src/LoadBalanceDashboard.jsx:163 | the result is a contiguous slice of the input with only white space before and after it; it is empty iff the input is all white space, and otherwise starts and ends with a non-white-space character |
| MemoInput.SaveMemo | cloud-project/frontend/src/LoadBalanceDashboard.jsx:162-169 | nothing is posted iff the input is empty or white space only; otherwise the untrimmed input is posted |

## Left out

- React rendering, JSX layout, styles, `SummaryCard`/`StyledTable`, and all hooks, `fetch` calls, JSON parsing and `setInterval`/`clearInterval` polling: these are presentation, network I/O and timers. The `startLoad`/`stopLoad` timer guard is part of this.
- Express setup, the JSON body parser, `app.listen` and logging: HTTP plumbing. Only the state behind each route is modelled.
- `new Date()`: the memo timestamp is a parameter (`Backend.Timestamp`), and the dashboard's `time` is an opaque string.
- `Backend.Server.PostMemo`: a body `content` that is not a string (a JSON number, boolean, null, object or array) is not modelled. Content is a string or absent; in particular a stored `null`, which `GET /memo` sends back as `"content": null`, is not distinguished from an absent key.
- JavaScript numbers are IEEE doubles; counts, hits and the visit counter are unbounded integers here, since no realistic run reaches 2^53.
- `Traffic.Pivot`: JavaScript orders integer-like property names (such as "42") before other keys. Minute labels and hostnames are assumed not to be integer-like.
- `Traffic.Pivot`, `Traffic.Assign` and `HitTable.RecordVisit`: names inherited from `Object.prototype` are not modelled, whether as minute labels or as hostnames. A minute label such as "toString" finds an inherited value and gets no record. Assigning a number to a "__proto__" key is ignored and adds no key, where the model adds one. A responding server named "constructor" makes `hits` become `NaN`, where the model gives 1.
- `HitTable.RecordVisit`: the table is a map, so the key order of `servers` is not modelled. That order only affects the rows' display order in the rendered table. The `lastVisitCount: 0, lastTime: null` defaults are not modelled either, because the update always overwrites them.
- `MemoInput.Trim`: JavaScript strings are UTF-16 code units, and the model uses Unicode scalar values. This makes no difference to white-space detection, since every white-space character lies in the Basic Multilingual Plane.
- The bounded recent-request log, the summary and traffic aggregation queries, image listing, S3 upload and server-side memo validation: the modelled `backend/app.js` does not contain them. The dashboard only consumes their output.
- `frontend/vite.config.js` (the dev proxy's `/api` prefix strip) is not part of this model.
