/** The HTTP handlers and the WebSocket connection handler, each run as one
    atomic step over the store, the client hub and the alert notifier. */
module Server {
  import opened Wrappers
  import opened Readings
  import opened Request
  import opened Broadcast
  import opened Alert

  /** A JSON response body: an error object, one row or a list of rows. */
  datatype Payload = ErrorBody(error: string) | One(reading: Reading) | Many(rows: seq<Reading>)

  datatype Response = Response(status: nat, payload: Payload)

  /** How the database answers an INSERT: committed, or failed; a failed
      insert may or may not have used up an AUTOINCREMENT id. */
  datatype InsertOutcome = Committed | Failed(consumesId: bool)

  const BadInput: string := "temperature and humidity must be numbers"
  const DbError: string := "DB error"
  const NoData: string := "No data yet"

  /** What a client joining now is sent: the latest row, when the lookup
      succeeded and the table is not empty, and nothing otherwise. */
  function Bootstrap(rows: seq<Reading>, lookupOk: bool): (msgs: seq<Message>)
    ensures |msgs| <= 1
    ensures |msgs| == 1 <==> lookupOk && rows != []
    ensures msgs != [] ==> msgs[0].LatestReading? && msgs[0].data in rows
    ensures msgs != [] ==> forall i :: 0 <= i < |rows| ==> rows[i].createdAt <= msgs[0].data.createdAt
  {
    var latest := Latest(rows);
    if lookupOk && latest.Some? then [LatestReading(latest.value)] else []
  }

  class Server {
    const store: ReadingStore
    const hub: Hub
    const notifier: Notifier

    ghost predicate Valid()
      reads this, store, hub, notifier
    {
      store.Valid() && hub.Valid() && notifier.Valid()
    }

    constructor (webhookUrl: string)
      ensures Valid()
      ensures fresh(store) && fresh(hub) && fresh(notifier)
      ensures store.rows == [] && store.nextId == 1
      ensures hub.clients == [] && hub.outbox == []
      ensures notifier.webhookUrl == webhookUrl && notifier.attempts == []
    {
      store := new ReadingStore();
      hub := new Hub();
      notifier := new Notifier(webhookUrl);
    }

    /** POST /api/readings. A body without two numbers is refused with 400 and
        a failed insert with 500, both before anything is stored, sent or
        posted; a committed insert answers 201 with the stored row, after it
        has been broadcast to every OPEN client and the alert evaluated. */
    method Ingest(body: Json, now: int, insert: InsertOutcome, alertDelivered: bool) returns (res: Response)
      requires Valid()
      modifies store, hub, notifier
      ensures Valid()
      ensures res.status == 400 <==> Numbers(body).None?
      ensures res.status == 500 <==> Numbers(body).Some? && insert.Failed?
      ensures res.status == 201 <==> Numbers(body).Some? && insert.Committed?
      ensures res.status == 400 ==> res.payload == ErrorBody(BadInput) && store.nextId == old(store.nextId)
      ensures res.status == 500 ==>
        && res.payload == ErrorBody(DbError)
        && store.nextId == old(store.nextId) + (if insert.consumesId then 1 else 0)
      ensures res.status != 201 ==>
        && store.rows == old(store.rows)
        && hub.outbox == old(hub.outbox)
        && notifier.attempts == old(notifier.attempts)
        && notifier.evals == old(notifier.evals)
      ensures res.status == 201 ==>
        var r := Reading(old(store.nextId), Numbers(body).value.0, Numbers(body).value.1, now);
        && res.payload == One(r)
        && store.rows == old(store.rows) + [r]
        && store.nextId == old(store.nextId) + 1
        && hub.outbox == old(hub.outbox) + Fanout(hub.clients, NewReading(r))
        && notifier.attempts == old(notifier.attempts) +
             (if ShouldAlert(notifier.webhookUrl, r.temperature)
              then [Attempt(r.temperature, r.humidity, alertDelivered)] else [])
        && notifier.evals == old(notifier.evals) + [Attempt(r.temperature, r.humidity, alertDelivered)]
      ensures hub.clients == old(hub.clients) && hub.nextClientId == old(hub.nextClientId)
    {
      var values := Numbers(body);
      if values.None? {
        return Response(400, ErrorBody(BadInput));
      }
      var (temperature, humidity) := values.value;
      if insert.Failed? {
        if insert.consumesId {
          store.BurnId();
        }
        return Response(500, ErrorBody(DbError));
      }
      var reading := store.Append(temperature, humidity, now);
      hub.Publish(NewReading(reading));
      notifier.Notify(temperature, humidity, alertDelivered);
      return Response(201, One(reading));
    }

    /** GET /api/readings?limit=q: at most the requested number of rows (50
        when `limit` is missing, not a number or 0; all rows when it is
        negative), newest first; 500 when the query fails, which includes a
        `limit` that is not an integer or does not fit in 64 bits. */
    function GetRecent(limit: NumberValue, selectOk: bool): (res: Response)
      reads this, store
      ensures res.status == 200 <==> selectOk && LimitBound(EffectiveLimit(limit)).Some?
      ensures res.status != 200 ==> res == Response(500, ErrorBody(DbError))
      ensures res.status == 200 ==>
        && res.payload.Many?
        && NewestFirstOrder(res.payload.rows)
        && multiset(res.payload.rows) <= multiset(store.rows)
        && |res.payload.rows| <= |store.rows|
        && res.payload.rows == NewestFirst(store.rows)[..|res.payload.rows|]
      ensures res.status == 200 && (limit.NaN? || limit.x == 0.0) ==>
        |res.payload.rows| == if |store.rows| < 50 then |store.rows| else 50
      ensures res.status == 200 && limit.Finite? && limit.x > 0.0 ==>
        |res.payload.rows| as real == if (|store.rows| as real) < limit.x then |store.rows| as real else limit.x
      ensures res.status == 200 && limit.Finite? && limit.x < 0.0 ==> |res.payload.rows| == |store.rows|
    {
      var bound := LimitBound(EffectiveLimit(limit));
      if !selectOk || bound.None? then Response(500, ErrorBody(DbError))
      else Response(200, Many(Recent(store.rows, bound.value)))
    }

    /** GET /api/readings/latest: the newest row; 404 while the table is
        empty; 500 when the query fails. */
    function GetLatest(selectOk: bool): (res: Response)
      reads this, store
      ensures !selectOk ==> res == Response(500, ErrorBody(DbError))
      ensures selectOk && store.rows == [] ==> res == Response(404, ErrorBody(NoData))
      ensures selectOk && store.rows != [] ==>
        && res.status == 200
        && res.payload.One?
        && res.payload.reading in store.rows
        && forall i :: 0 <= i < |store.rows| ==> store.rows[i].createdAt <= res.payload.reading.createdAt
    {
      if !selectOk then Response(500, ErrorBody(DbError))
      else
        match Latest(store.rows)
        case None => Response(404, ErrorBody(NoData))
        case Some(row) => Response(200, One(row))
    }

    /** `wss.on('connection')`: the new client joins OPEN and is sent the
        latest row, if the lookup succeeds and there is one; the client's
        first and only message so far is that bootstrap. */
    method OnConnection(lookupOk: bool) returns (id: nat)
      requires Valid()
      modifies hub
      ensures Valid()
      ensures hub.clients == old(hub.clients) + [Client(id, Open)]
      ensures forall i :: 0 <= i < |old(hub.clients)| ==> old(hub.clients)[i].id != id
      ensures hub.outbox == old(hub.outbox) +
        (if lookupOk && store.rows != [] then [Delivery(id, LatestReading(Latest(store.rows).value))] else [])
      ensures Inbox(hub.outbox, id) == Bootstrap(store.rows, lookupOk)
    {
      var msgs := Bootstrap(store.rows, lookupOk);
      id := hub.Join();
      if msgs != [] {
        hub.Send(id, msgs[0]);
        assert msgs == [msgs[0]];
      }
    }
  }
}
