# Sensor reading ingestion, storage and live broadcast

This project models in Dafny the server of a small weather station. A device
POSTs temperature and humidity readings. The server checks them and stores
each one in an SQLite table, `readings`, whose ids come from an
`AUTOINCREMENT` counter. It pushes each stored reading to every open
WebSocket viewer as a `new-reading` message. When a reading is above 30
degrees and a webhook URL is configured, it attempts one Discord alert. It
answers history queries (`GET /api/readings?limit=`, `GET
/api/readings/latest`). It sends each newly connected viewer the latest
reading as a `latest-reading` message.

Every request and every connection is modelled as one atomic step over three
pieces of explicit state:

- `Readings.ReadingStore`: the table's rows (`seq<Reading>`) and its id counter
  `nextId`. It changes only through `Append` (a committed INSERT) and `BurnId`
  (a failed INSERT that used up an id).
- `Broadcast.Hub`: the connected clients with their ready states (CONNECTING,
  OPEN, CLOSING, CLOSED). It also keeps an outbox that logs every
  `client.send`, with the recipient.
- `Alert.Notifier`: the configured webhook URL and the log of webhook posts
  attempted.

The outside world enters as parameters:

- the parsed JSON body;
- the clock reading `now`, in milliseconds, standing for `created_at`
  (for years 0000 to 9999, `toISOString` text sorts the same way as these
  numbers; outside that range the text starts with `+` or `-` and sorts
  differently);
- whether the database call succeeds (`InsertOutcome`, `selectOk`,
  `lookupOk`);
- whether the webhook post gets through;
- the value JavaScript's `Number()` gives for the `limit` query parameter.

The two queries are pure functions of the rows. `Readings.NewestFirst` is an
insertion sort on `createdAt`, newest first, and `Recent` and `Latest` take a
prefix of it. The model breaks ties between equal timestamps by putting the
later-inserted row first. That is one of the orders the database may return.
Three contracts fix this tie order: the "prefix of `NewestFirst`" clauses of
`Recent` and `GetRecent`, and the `hub.outbox` clause of `OnConnection`, which
names the tied row the bootstrap carries. The contracts of `Latest`,
`GetLatest` and `Bootstrap`, and the lemma `RecentHoldsNewest`, hold for every
tie order.

The model follows the code in these points:

- Validation is `typeof === 'number'` only. There is no finiteness check.
- `limit` is not forced positive. A negative integer lifts the bound, because
  SQLite reads a negative LIMIT as "no limit". A value that is not an integer,
  or whose magnitude is 2^63 or more, cannot become a 64-bit integer; the query
  then fails with a datatype mismatch, so the answer is 500.
- `id` order and `created_at` order agree only if the clock never goes
  backwards. The model does not assume this. `LatestAfterAppend` takes it as a
  premise.
- A failed INSERT may use up an id, so ids are strictly increasing but can have
  gaps. SQLite's `AUTOINCREMENT` documentation allows this.
- A client that closes keeps its entry, with state CLOSING or CLOSED, and
  receives nothing more. `ws` also keeps a CLOSING client in its set; it
  removes a client only on its `close` event, once it is CLOSED. A CLOSED entry
  receives nothing, so keeping it changes nothing any client sees.

## Model

| member | source | states |
|---|---|---|
| Readings.Insert | server.js:113 | inserting a row into a newest-first sequence keeps it newest-first and adds exactly that row |
| Readings.NewestFirst | server.js:113 | `ORDER BY created_at DESC` gives a newest-first permutation of the rows (same multiset, same length) |
| Readings.Recent | server.js:112-114 | the answer has min(limit, rows) rows, or all rows when there is no bound; it is newest-first, it is a prefix of the newest-first order, and it holds only stored rows |
| Readings.RecentHoldsNewest | server.js:113 | every stored row that a `Recent` answer leaves out is no newer than every row in the answer |
| Readings.NewestFirstHeadIsNewest | server.js:128 | the head of the newest-first order is at least as new as every row |
| Readings.Latest | server.js:127-135 | `LIMIT 1` gives no row exactly when the table is empty; otherwise a stored row at least as new as every row |
| Readings.LatestAfterAppend | server.js:80-84 | after appending a row stamped no earlier than any stored row, the latest row has the new timestamp; when the new stamp is strictly newest, the latest row is the appended one |
| Readings.IdsUnique | server.js:26 | no two rows of a valid table share an id |
| Readings.PrefixMultiset | server.js:113 | a sequence's multiset splits into those of a prefix and the rest |
| Readings.ReadingStore.constructor | server.js:24-31 | the new table is empty and its first id will be 1 |
| Readings.ReadingStore.Append | server.js:82-84 | a committed INSERT appends one row; its id is the counter's value, greater than every stored id; the old rows are unchanged; the counter moves on by one |
| Readings.ReadingStore.BurnId | server.js:86-89 | a failed INSERT stores no row and may only move the id counter forward, so no id is handed out twice |
| Request.Property | server.js:74 | reading a body field gives a value exactly when the body is an object with a member of that name, and the value is that of the last such member |
| Request.LastMember | server.js:74 | a field lookup is undefined exactly when no member has that name; otherwise it yields the value of the last member with that name |
| Request.LastBindingExtends | server.js:74 | appending a member with another name keeps an earlier binding the last one |
| Request.TypeOf | server.js:76 | `typeof` of a property is "undefined" exactly for a missing field and "object" exactly for null, arrays and objects |
| Request.IsNumber | server.js:76 | `typeof v === 'number'` |
| Request.IsNumberExactlyNumbers | server.js:76 | the `typeof` check accepts exactly the JSON numbers |
| Request.Numbers | server.js:74-78 | the body yields a (temperature, humidity) pair exactly when both fields are numbers, and the pair is those two numbers |
| Request.EffectiveLimit | server.js:110 | the limit after the default of 50 is never 0; it is the given number when that is a nonzero number and 50 when it is missing, not a number or 0 |
| Request.LimitBound | server.js:113 | an SQLite LIMIT value is accepted exactly when it is an integer strictly inside the 64-bit range (negative means no bound, otherwise that many rows); any other value is an error |
| Broadcast.Fanout | server.js:41-45 | the sends of one broadcast, one per OPEN client in client order; never more sends than clients |
| Broadcast.FanoutSends | server.js:39-46 | every send of a broadcast carries the same message to a client that is OPEN |
| Broadcast.FanoutConcat | server.js:41-45 | broadcasting over a split client list sends the sends for the first part, then those for the second |
| Broadcast.Inbox | server.js:43 | what one client has received, in order; never more than was sent in all |
| Broadcast.InboxConcat | server.js:43 | what a client receives from two send logs in a row is what it receives from the first and then from the second |
| Broadcast.InboxUnaddressed | server.js:43 | a client never addressed has received nothing |
| Broadcast.InboxOfFanout | server.js:39-46 | one broadcast gives each OPEN client the message exactly once and a client in any other state nothing |
| Broadcast.BroadcastsInOrder | server.js:39-46 | a client OPEN at two broadcasts receives the first, then exactly what was sent to it in between, then the second, whatever joins, closes and sends came between |
| Broadcast.Next | server.js:42 | the ready state moves forward: never back to CONNECTING, an OPEN connection stops being OPEN, and only CLOSED stays put |
| Broadcast.Advanced | server.js:42 | a transport step changes only the named connection's state, to the next one in CONNECTING, OPEN, CLOSING, CLOSED |
| Broadcast.Hub.constructor | server.js:36 | the server starts with no clients and nothing sent |
| Broadcast.Hub.Publish | server.js:39-46 | the loop over the clients appends exactly the fan-out of the message to the send log; the client list is unchanged |
| Broadcast.Hub.Join | server.js:142 | a new connection gets a fresh id and joins OPEN, and nothing has been sent to it yet |
| Broadcast.Hub.Send | server.js:151 | one send appends one delivery to the log, and the recipient's inbox grows by exactly that message |
| Broadcast.Hub.Advance | server.js:42 | the transport moves one connection to its next ready state; nothing is sent |
| Alert.ThresholdBoundary | server.js:51-57 | 30.0 raises no alert, 30.1 raises one when a webhook URL is set, and nothing is posted without a URL |
| Alert.ShouldAlert | server.js:51-57 | the gate: a webhook URL is set and the temperature is strictly above 30 |
| Alert.Attempted | server.js:50-68 | the posts a run of evaluations attempts, one per evaluation through the gate; never more than the evaluations |
| Alert.AttemptedSnoc | server.js:50-68 | one more evaluation adds its post, if any, after the earlier ones, which is what `Notify` does to the log |
| Alert.EveryHotReadingPosts | server.js:54-64 | with a webhook set, every reading above 30 gets its own post, repeats included: no deduplication or cooldown |
| Alert.NoHotReadingNoPost | server.js:54-57 | a run with no reading above 30 posts nothing |
| Alert.Notifier.constructor | server.js:11 | the webhook URL is the configured one (empty when unset), nothing has been evaluated and no post has been attempted; the post log is the posts of the evaluations so far |
| Alert.Notifier.Notify | server.js:50-68 | one evaluation is added to the evaluations seen, and attempts exactly one post when the gate is open and none otherwise; a failed post is recorded as failed and nothing is returned; the post log stays the posts of all evaluations so far (`Attempted`) |
| Server.Bootstrap | server.js:146-153 | a joining client is sent at most one message: `latest-reading` with the newest stored row, exactly when the lookup succeeded and the table is not empty |
| Server.Server.constructor | server.js:11-36 | the server starts with a new empty table whose first id will be 1, a new hub with no clients and nothing sent, and a new notifier with no alert attempted |
| Server.Server.Ingest | server.js:73-106 | 400 exactly when a field is not a number, 500 exactly on a failed insert; on neither is a row stored, a message sent or an alert attempted; on 201 the response carries the stored row (the store's id, the input values, `now`), and the row is broadcast to every OPEN client and the alert evaluated once (a refused request evaluates none) |
| Server.Server.GetRecent | server.js:109-123 | 200 exactly when the query succeeds and `Number(limit)`, defaulted to 50, is an integer of magnitude below 2^63; the rows are a newest-first prefix of stored rows; there are 50 of them (or all, if fewer) when `limit` is missing, not a number or 0; there are `limit` of them (or all) when it is positive; there are all of them when it is negative; otherwise 500 |
| Server.Server.GetLatest | server.js:126-139 | 500 on a failed query, 404 on an empty table, otherwise 200 with a stored row at least as new as every row |
| Server.Server.OnConnection | server.js:142-154 | the new client joins OPEN, and its whole inbox is the bootstrap: one `latest-reading` with the newest row, exactly when the lookup succeeded and a row exists |

## Left out

- Express routing, JSON body parsing, CORS, static file hosting, `server.listen` and the environment lookup of `PORT`: plumbing outside the pipeline. The webhook URL becomes a constructor parameter.
- SQLite itself, its durability and `db.serialize`: replaced by an in-memory sequence. Each database call's success or failure is an input.
- Floating point: temperatures, humidities and `limit` are Dafny reals. NaN or Infinity in a body, and `Number()` returning Infinity, are not modelled.
- Parsing of the query string by `Number()`: the model takes its result (not a number, or a finite value) as input.
- `JSON.stringify`: a message is modelled as a datatype value, and equal values stand for equal text.
- The alert text and its `toFixed(1)` formatting, and the axios call itself: only the decision to make one post, and whether it got through, are modelled.
- Console logging, including `ws.on('close')` logging.
- Async interleaving: every request and every connection is one atomic step. A `new-reading` broadcast that overtakes the bootstrap lookup of a client that just joined is not modelled.
- `ws.send` on a socket that stopped being OPEN before its bootstrap lookup returned: it cannot happen in an atomic step.
- Timestamps are integers, so the `created_at` text format is not modelled.
- The browser page `public/script.js` is not part of this model.
- Readings.ReadingStore.constructor and Server.Server.constructor model only the first start, on a new database file. `CREATE TABLE IF NOT EXISTS` on `weather.db` lets a restart resume with the stored rows and the AUTOINCREMENT counter. Such a restart is any state in which `Valid()` holds, and every method is proved from `Valid()` alone.
