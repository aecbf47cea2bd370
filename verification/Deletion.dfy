/** Erasure of a closed eBay account: one transaction per notification, idempotent by its id. */
module Deletion {
  import opened Models
  import opened Tables

  const EBAY := "ebay"

  /** Drops the top-level `seller` block; what cannot be read is replaced by a marker. `None` is the
      decompression error of a corrupt frame, which nothing catches. */
  function ScrubPayload(p: Payload): (r: Option<Payload>)
    ensures r.None? <==> p.Corrupt?
    ensures r.Some? ==> r.value.SellerFree()
    ensures p.Object? ==> r == Some(Object(map k | k in p.fields && k != "seller" :: p.fields[k]))
    ensures p.OtherJson? ==> r == Some(p)
    ensures p.Unreadable? || p.Marker? ==> r == Some(Marker)
  {
    match p
    case Unreadable(_) => Some(Marker)
    case Object(fields) => Some(Object(map k | k in fields && k != "seller" :: fields[k]))
    case Corrupt(_) => None
    case _ => Some(p)
  }

  predicate SoldBy(key: Key, row: ListingRow, username: string) {
    key.0 == EBAY && row.seller == Some(username)
  }

  function RowsOf(listings: map<Key, ListingRow>, username: string): set<Key> {
    set k | k in listings && SoldBy(k, listings[k], username)
  }

  /** Every payload of the seller decompresses. */
  predicate Scrubbable(listings: map<Key, ListingRow>, username: string) {
    forall k :: k in listings && SoldBy(k, listings[k], username) ==> !listings[k].payload.Corrupt?
  }

  function ScrubRow(row: ListingRow): ListingRow
    requires !row.payload.Corrupt?
  {
    row.(seller := None, payload := ScrubPayload(row.payload).value)
  }

  function ScrubSeller(listings: map<Key, ListingRow>, username: string): map<Key, ListingRow>
    requires Scrubbable(listings, username)
  {
    map k | k in listings ::
      if SoldBy(k, listings[k], username) then ScrubRow(listings[k]) else listings[k]
  }

  predicate Seen(events: seq<DeletionEvent>, id: string) {
    exists i :: 0 <= i < |events| && events[i].id == id
  }

  /** The transaction raises, and rolls back. */
  predicate Raises(db: Db, id: string, username: string) {
    !Seen(db.events, id) && !Scrubbable(db.listings, username)
  }

  /** `process_deletion` on the tables. */
  function ProcessDeletion(db: Db, id: string, username: string): Db {
    if Seen(db.events, id) || Raises(db, id, username) then db
    else db.(listings := ScrubSeller(db.listings, username),
             events := db.events + [DeletionEvent(id, |RowsOf(db.listings, username)|)])
  }

  /** The row-by-row update loop; it raises on the first corrupt payload it meets. */
  method Scrub(conn: Conn, username: string) returns (count: Option<nat>)
    modifies conn`listings
    ensures count.Some? <==> Scrubbable(old(conn.listings), username)
    ensures count.Some? ==> conn.listings == ScrubSeller(old(conn.listings), username)
    ensures count.Some? ==> count.value == |RowsOf(old(conn.listings), username)|
  {
    ghost var before := conn.listings;
    var rows := RowsOf(conn.listings, username);
    var rest := rows;
    while rest != {}
      invariant rest <= rows && conn.listings.Keys == before.Keys
      invariant forall k :: k in rows && k !in rest ==> !before[k].payload.Corrupt? && conn.listings[k] == ScrubRow(before[k])
      invariant forall k :: k in before && !(k in rows && k !in rest) ==> conn.listings[k] == before[k]
      decreases |rest|
    {
      var k :| k in rest;
      var payload := ScrubPayload(conn.listings[k].payload);
      if payload.None? {
        return None;
      }
      conn.listings := conn.listings[k := conn.listings[k].(seller := None, payload := payload.value)];
      rest := rest - {k};
    }
    count := Some(|rows|);
  }

  datatype Processed = Duplicate | Scrubbed(rows: nat) | Raised

  /** One transaction: an exception rolls it back. */
  method Process(conn: Conn, id: string, username: string) returns (r: Processed)
    modifies conn`listings, conn`events
    ensures conn.View() == ProcessDeletion(old(conn.View()), id, username)
    ensures r == Duplicate <==> Seen(old(conn.events), id)
    ensures r == Raised <==> Raises(old(conn.View()), id, username)
    ensures r.Scrubbed? ==> r.rows == |RowsOf(old(conn.listings), username)|
  {
    if Seen(conn.events, id) {
      return Duplicate;
    }
    var saved := conn.listings;
    var count := Scrub(conn, username);
    if count.None? {
      conn.listings := saved;
      return Raised;
    }
    conn.events := conn.events + [DeletionEvent(id, count.value)];
    r := Scrubbed(count.value);
  }

  /** One entry of `/pending`; a missing field reads as the empty string. */
  datatype Pending = Pending(id: string, username: string)
  {
    predicate WellFormed() { id != "" && username != "" }
  }

  /** A pulled queue after processing: the ids to acknowledge, unless an exception ended it. */
  datatype Pulled = Pulled(db: Db, done: seq<string>, raised: bool)

  function DrainAll(db: Db, pending: seq<Pending>): Pulled {
    if pending == [] then Pulled(db, [], false)
    else
      var before := DrainAll(db, pending[..|pending| - 1]);
      var item := pending[|pending| - 1];
      if before.raised || !item.WellFormed() then before
      else if Raises(before.db, item.id, item.username) then before.(raised := true)
      else Pulled(ProcessDeletion(before.db, item.id, item.username), before.done + [item.id], false)
  }

  function DoneIds(pending: seq<Pending>): seq<string> {
    if pending == [] then []
    else
      var item := pending[|pending| - 1];
      DoneIds(pending[..|pending| - 1]) + if item.WellFormed() then [item.id] else []
  }

  lemma {:induction false} RaisedIsFinal(db: Db, pending: seq<Pending>, n: nat)
    requires n <= |pending| && DrainAll(db, pending[..n]).raised
    ensures DrainAll(db, pending) == DrainAll(db, pending[..n])
  {
    if n == |pending| {
      assert pending[..n] == pending;
    } else {
      assert pending[..|pending| - 1][..n] == pending[..n];
      RaisedIsFinal(db, pending[..|pending| - 1], n);
    }
  }

  lemma SeenAfterProcessing(db: Db, id: string, username: string)
    requires !Raises(db, id, username)
    ensures Seen(ProcessDeletion(db, id, username).events, id)
  {
    var events := ProcessDeletion(db, id, username).events;
    if !Seen(db.events, id) {
      assert events[|events| - 1].id == id;
    }
  }

  lemma SeenIsKept(db: Db, id: string, username: string, other: string)
    requires Seen(db.events, other)
    ensures Seen(ProcessDeletion(db, id, username).events, other)
  {
    var events := ProcessDeletion(db, id, username).events;
    var i :| 0 <= i < |db.events| && db.events[i].id == other;
    assert events[i] == db.events[i];
  }

  /** The loop of `drain`: every well-formed entry is processed, in its own transaction, before
      its id joins the list to acknowledge; an exception ends it before anything is acknowledged. */
  method DrainQueue(conn: Conn, pending: seq<Pending>) returns (done: seq<string>, raised: bool)
    modifies conn`listings, conn`events
    ensures Pulled(conn.View(), done, raised) == DrainAll(old(conn.View()), pending)
    ensures forall i :: 0 <= i < |done| ==> Seen(conn.events, done[i])
  {
    done := [];
    for i := 0 to |pending|
      invariant Pulled(conn.View(), done, false) == DrainAll(old(conn.View()), pending[..i])
      invariant forall j :: 0 <= j < |done| ==> Seen(conn.events, done[j])
    {
      assert pending[..i + 1][..i] == pending[..i];
      var item := pending[i];
      label before:
      if item.WellFormed() {
        var r := Process(conn, item.id, item.username);
        if r == Raised {
          RaisedIsFinal(old(conn.View()), pending, i + 1);
          return done, true;
        }
        SeenAfterProcessing(old@before(conn.View()), item.id, item.username);
        forall j | 0 <= j < |done| ensures Seen(conn.events, done[j]) {
          SeenIsKept(old@before(conn.View()), item.id, item.username, done[j]);
        }
        done := done + [item.id];
      }
    }
    assert pending[..|pending|] == pending;
    raised := false;
  }

  /** A transaction that commits makes its own id seen, and no other. */
  lemma SeenExactly(db: Db, id: string, username: string, other: string)
    requires !Raises(db, id, username)
    ensures Seen(ProcessDeletion(db, id, username).events, other) <==> Seen(db.events, other) || other == id
  {
    SeenAfterProcessing(db, id, username);
    if Seen(db.events, other) {
      SeenIsKept(db, id, username, other);
    }
  }

  /** Sold on eBay by this very seller, whatever else the row says. */
  predicate IsEbayRowOf(key: Key, row: ListingRow, username: string) {
    key.0 == "ebay" && row.seller == Some(username)
  }

  /** Exactly what a committed deletion does: no eBay row keeps the name; each row that had it keeps
      every other column but the payload, which loses its seller; every other row is untouched; and
      the event counts the rows that had it. */
  lemma ErasureCoversExactly(db: Db, id: string, username: string)
    requires !Seen(db.events, id) && !Raises(db, id, username)
    ensures var before, after := db.listings, ProcessDeletion(db, id, username).listings;
      && after.Keys == before.Keys
      && (forall k :: k in after ==> !(k.0 == "ebay" && after[k].seller == Some(username)))
      && (forall k :: k in before && IsEbayRowOf(k, before[k], username) ==>
            && after[k].(seller := before[k].seller, payload := before[k].payload) == before[k]
            && after[k].seller == None && after[k].payload.SellerFree())
      && (forall k :: k in before && !IsEbayRowOf(k, before[k], username) ==> after[k] == before[k])
    ensures ProcessDeletion(db, id, username).events
         == db.events + [DeletionEvent(id, |set k | k in db.listings && IsEbayRowOf(k, db.listings[k], username)|)]
  {
    assert RowsOf(db.listings, username) == set k | k in db.listings && IsEbayRowOf(k, db.listings[k], username);
  }

  /** And it raises exactly for an unseen id and a corrupt payload among those rows. */
  lemma RaisesExactly(db: Db, id: string, username: string)
    ensures Raises(db, id, username) <==>
      && (forall i :: 0 <= i < |db.events| ==> db.events[i].id != id)
      && exists k :: k in db.listings && IsEbayRowOf(k, db.listings[k], username) && db.listings[k].payload.Corrupt?
  {
    if !Scrubbable(db.listings, username) {
      var k :| k in db.listings && SoldBy(k, db.listings[k], username) && db.listings[k].payload.Corrupt?;
      assert IsEbayRowOf(k, db.listings[k], username);
    }
  }

  // What ends a drain.

  lemma ScrubbingSparesOthers(db: Db, id: string, username: string, other: string)
    ensures Scrubbable(ProcessDeletion(db, id, username).listings, other) <==> Scrubbable(db.listings, other)
  {
    var after := ProcessDeletion(db, id, username).listings;
    assert after.Keys == db.listings.Keys;
    if !Scrubbable(db.listings, other) {
      var k :| k in db.listings && SoldBy(k, db.listings[k], other) && db.listings[k].payload.Corrupt?;
      assert after[k] == db.listings[k];
    }
  }

  predicate PoisonedAt(db: Db, pending: seq<Pending>, i: nat)
    requires i < |pending|
  {
    && pending[i].WellFormed() && !Scrubbable(db.listings, pending[i].username) && !Seen(db.events, pending[i].id)
    && forall j :: 0 <= j < i && pending[j].WellFormed() ==> pending[j].id != pending[i].id
  }

  /** Some entry names, under an id neither committed before nor earlier in the answer, a seller
      with a corrupt payload. */
  predicate Poisoned(db: Db, pending: seq<Pending>) {
    exists i :: 0 <= i < |pending| && PoisonedAt(db, pending, i)
  }

  predicate Names(pending: seq<Pending>, id: string) {
    exists i :: 0 <= i < |pending| && pending[i].WellFormed() && pending[i].id == id
  }

  lemma PoisonedLast(db: Db, pending: seq<Pending>)
    requires pending != []
    ensures PoisonedAt(db, pending, |pending| - 1) <==>
      var item := pending[|pending| - 1];
      && item.WellFormed() && !Scrubbable(db.listings, item.username) && !Seen(db.events, item.id)
      && !Names(pending[..|pending| - 1], item.id)
  {
    var n := |pending| - 1;
    assert forall j :: 0 <= j < n ==> pending[..n][j] == pending[j];
  }

  lemma NamesGrow(pending: seq<Pending>)
    requires pending != []
    ensures forall id :: Names(pending, id) <==>
      Names(pending[..|pending| - 1], id) || (pending[|pending| - 1].WellFormed() && pending[|pending| - 1].id == id)
  {
    var n := |pending| - 1;
    assert forall j :: 0 <= j < n ==> pending[..n][j] == pending[j];
    forall id | Names(pending[..n], id) ensures Names(pending, id) {
      var i :| 0 <= i < n && pending[..n][i].WellFormed() && pending[..n][i].id == id;
      assert pending[i].id == id;
    }
  }

  lemma PoisonGrows(db: Db, pending: seq<Pending>)
    requires pending != []
    ensures Poisoned(db, pending) <==> Poisoned(db, pending[..|pending| - 1]) || PoisonedAt(db, pending, |pending| - 1)
  {
    var n := |pending| - 1;
    forall i | 0 <= i < n ensures PoisonedAt(db, pending, i) <==> PoisonedAt(db, pending[..n], i) {
      assert pending[..n][i] == pending[i];
      assert forall j :: 0 <= j < i ==> pending[..n][j] == pending[j];
    }
    if Poisoned(db, pending[..n]) {
      var i :| 0 <= i < n && PoisonedAt(db, pending[..n], i);
      assert PoisonedAt(db, pending, i);
    }
  }

  /** A drain raises, and so acknowledges nothing, if and only if its answer is poisoned. One that
      does not commits exactly the ids it was given. */
  lemma {:induction false} DrainRaisesExactly(db: Db, pending: seq<Pending>)
    ensures DrainAll(db, pending).raised <==> Poisoned(db, pending)
    ensures forall u :: Scrubbable(DrainAll(db, pending).db.listings, u) <==> Scrubbable(db.listings, u)
    ensures !DrainAll(db, pending).raised ==> DrainAll(db, pending).done == DoneIds(pending)
    ensures !DrainAll(db, pending).raised ==>
      forall id :: Seen(DrainAll(db, pending).db.events, id) <==> Seen(db.events, id) || Names(pending, id)
  {
    if pending != [] {
      var n := |pending| - 1;
      DrainRaisesExactly(db, pending[..n]);
      PoisonGrows(db, pending);
      NamesGrow(pending);
      hide Poisoned, Scrubbable, Names, Seen, ProcessDeletion;
      var before := DrainAll(db, pending[..n]);
      var item := pending[n];
      PoisonedLast(db, pending);
      forall u ensures Scrubbable(DrainAll(db, pending).db.listings, u) <==> Scrubbable(db.listings, u) {
        ScrubbingSparesOthers(before.db, item.id, item.username, u);
      }
      if !DrainAll(db, pending).raised {
        forall id ensures Seen(DrainAll(db, pending).db.events, id) <==> Seen(db.events, id) || Names(pending, id) {
          if item.WellFormed() { SeenExactly(before.db, item.id, item.username, id); }
        }
      }
    }
  }

  /** The ids to acknowledge are those of the well-formed entries. */
  lemma {:induction false} DoneExactly(pending: seq<Pending>, id: string)
    ensures id in DoneIds(pending) <==> Names(pending, id)
  {
    if pending != [] {
      NamesGrow(pending);
      DoneExactly(pending[..|pending| - 1], id);
      hide Names;
    }
  }
}
