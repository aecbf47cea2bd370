/** The SQLite tables the program keeps between cycles. `Db` is their content as a value; `Conn`
    is the connection whose tables the program updates in place. */
module Tables {
  import opened Models

  type Key = (string, string)

  datatype ListingRow = ListingRow(
    hash: SpecHash,
    text: Text,
    price: real,
    currency: string,
    shipping: Option<real>,
    saleType: SaleType,
    currentBid: Option<real>,
    endsAt: Option<int>,
    seller: Option<string>,
    payload: Payload,
    lastSeen: int)

  datatype Cached = Cached(spec: Spec, version: int)

  datatype Feedback = Ignored | BoughtIt

  datatype AlertRow = AlertRow(
    fingerprint: Fingerprint,
    key: Key,
    eurPerGb: real,
    discount: real,
    urgency: Urgency,
    price: real,
    sentAt: int,
    outcome: Option<Feedback>,
    mutedUntil: Option<int>)

  datatype Lane = Urgent | Deferred

  datatype QueueRow = QueueRow(lane: Lane, bestCase: Option<real>, attempts: nat)

  datatype DeletionEvent = DeletionEvent(id: string, scrubbed: nat)

  datatype Db = Db(
    listings: map<Key, ListingRow>,
    specs: map<SpecHash, Cached>,
    alerts: seq<AlertRow>,
    queue: map<SpecHash, QueueRow>,
    events: seq<DeletionEvent>)

  class Conn {
    var listings: map<Key, ListingRow>
    var specs: map<SpecHash, Cached>
    var alerts: seq<AlertRow>
    var queue: map<SpecHash, QueueRow>
    var events: seq<DeletionEvent>

    function View(): Db
      reads this
    {
      Db(listings, specs, alerts, queue, events)
    }
  }
}
