/** Deduplication against the listings table and anti-spam over the alert log. */
module RateLimit {
  import opened Models
  import opened Tables

  const MICROS_PER_DAY := 86_400_000_000
  const MUTE_MICROS := 86_400_000_000

  datatype SpamPolicy = SpamPolicy(dailyCap: int, dropPct: real, quietFrom: int, quietTo: int, downgradeTo: int)

  predicate IsNew(l: Listing, listings: map<Key, ListingRow>) { l.Key() !in listings }

  /** `price` is lower than `previous` by at least `dropPct` percent of it. */
  predicate DropsEnough(previous: real, price: real, dropPct: real)
    requires previous > 0.0
  {
    (previous - price) / previous * 100.0 >= dropPct
  }

  predicate PriceDropped(l: Listing, listings: map<Key, ListingRow>, dropPct: real) {
    l.Key() in listings && listings[l.Key()].price > 0.0
    && DropsEnough(listings[l.Key()].price, l.price, dropPct)
  }

  lemma DropsEnoughMeans(previous: real, price: real, dropPct: real)
    requires previous > 0.0
    ensures DropsEnough(previous, price, dropPct) <==> price <= (1.0 - dropPct / 100.0) * previous
  {
    var drop := (previous - price) / previous;
    assert drop * previous == previous - price;
    var part := dropPct / 100.0;
    assert drop * 100.0 >= dropPct <==> drop >= part;
    if drop >= part {
      assert drop * previous >= part * previous;
    } else {
      assert drop * previous < part * previous;
    }
  }

  /** Row `i` may be what `ORDER BY sent_at DESC LIMIT 1` returns; among equal instants any may. */
  predicate IsLastAlert(alerts: seq<AlertRow>, fp: Fingerprint, i: nat) {
    && i < |alerts| && alerts[i].fingerprint == fp
    && forall j :: 0 <= j < |alerts| && alerts[j].fingerprint == fp ==> alerts[j].sentAt <= alerts[i].sentAt
  }

  function NewestAlert(alerts: seq<AlertRow>, fp: Fingerprint): (r: Option<nat>)
    ensures r.Some? ==> IsLastAlert(alerts, fp, r.value)
    ensures r.None? ==> forall j :: 0 <= j < |alerts| ==> alerts[j].fingerprint != fp
  {
    if alerts == [] then None
    else
      var n := |alerts| - 1;
      var before := NewestAlert(alerts[..n], fp);
      assert forall j :: 0 <= j < n ==> alerts[..n][j] == alerts[j];
      if alerts[n].fingerprint != fp then before
      else if before.Some? && alerts[n].sentAt < alerts[before.value].sentAt then before
      else Some(n)
  }

  /** The row the query returns, when `pick` is the database's choice among equal instants. */
  function LastAlert(alerts: seq<AlertRow>, fp: Fingerprint, pick: nat): (r: Option<nat>)
    ensures r.Some? ==> IsLastAlert(alerts, fp, r.value)
    ensures r.None? ==> forall j :: 0 <= j < |alerts| ==> alerts[j].fingerprint != fp
  {
    if IsLastAlert(alerts, fp, pick) then Some(pick) else NewestAlert(alerts, fp)
  }

  function Day(instant: int): int { instant / MICROS_PER_DAY }

  /** A day is 24 hours: two instants of one day are less apart, and 24 hours on it is the next. */
  lemma DaysAreDays(a: int, b: int)
    ensures Day(a + 86_400_000_000) == Day(a) + 1
    ensures Day(a) == Day(b) ==> -86_400_000_000 < b - a < 86_400_000_000
    ensures Day(0) == 0
  {
  }

  /** Immediate alerts of one UTC day. */
  function UrgentOn(alerts: seq<AlertRow>, day: int): nat {
    if alerts == [] then 0
    else
      var last := alerts[|alerts| - 1];
      UrgentOn(alerts[..|alerts| - 1], day)
      + if last.urgency == Immediate && Day(last.sentAt) == day then 1 else 0
  }

  predicate InQuietHours(p: SpamPolicy, now: int) {
    var t := now % MICROS_PER_DAY;
    if p.quietFrom <= p.quietTo then p.quietFrom <= t < p.quietTo else t >= p.quietFrom || t < p.quietTo
  }

  datatype Suppression = Muted | AlreadyAlerted | DailyCap

  datatype Decision = Allowed(priority: int) | Suppressed(reason: Suppression)

  function Decide(deal: Deal, alerts: seq<AlertRow>, p: SpamPolicy, now: int, pick: nat): Decision {
    var previous := LastAlert(alerts, deal.fingerprint, pick);
    if previous.Some? && alerts[previous.value].mutedUntil.Some?
       && now < alerts[previous.value].mutedUntil.value then
      Suppressed(Muted)
    else if previous.Some? && alerts[previous.value].price > 0.0
            && !DropsEnough(alerts[previous.value].price, deal.listing.price, p.dropPct) then
      Suppressed(AlreadyAlerted)
    else if deal.urgency == Immediate && UrgentOn(alerts, Day(now)) >= p.dailyCap then
      Suppressed(DailyCap)
    else if deal.urgency == Immediate then
      Allowed(if InQuietHours(p, now) then p.downgradeTo else 5)
    else
      Allowed(2)
  }

  /** What the anti-spam rules ask of a new alert: the latest one of its fingerprint neither muted nor
      at a price this one does not undercut by the required drop, and, if urgent, a day below the
      cap. */
  predicate MaySend(deal: Deal, alerts: seq<AlertRow>, p: SpamPolicy, now: int, pick: nat) {
    var last := LastAlert(alerts, deal.fingerprint, pick);
    && (last.Some? ==>
          var row := alerts[last.value];
          && (row.mutedUntil.Some? ==> now >= row.mutedUntil.value)
          && (row.price > 0.0 ==> deal.listing.price <= (1.0 - p.dropPct / 100.0) * row.price))
    && (deal.urgency == Immediate ==> UrgentOn(alerts, Day(now)) < p.dailyCap)
  }

  function PriorityOf(urgency: Urgency, p: SpamPolicy, now: int): int {
    if urgency != Immediate then 2 else if InQuietHours(p, now) then p.downgradeTo else 5
  }

  /** Exactly those are allowed; an urgent one goes out at priority 5 outside the quiet hours and at
      the downgraded one inside, any other at 2. */
  lemma AllowedExactly(deal: Deal, alerts: seq<AlertRow>, p: SpamPolicy, now: int, pick: nat)
    ensures var decision := Decide(deal, alerts, p, now, pick);
      && (decision.Allowed? <==> MaySend(deal, alerts, p, now, pick))
      && (decision.Allowed? ==> decision.priority == PriorityOf(deal.urgency, p, now))
  {
    var last := LastAlert(alerts, deal.fingerprint, pick);
    if last.Some? && alerts[last.value].price > 0.0 {
      DropsEnoughMeans(alerts[last.value].price, deal.listing.price, p.dropPct);
    }
    hide DropsEnough, InQuietHours, UrgentOn;
  }

  lemma DayRemainder(x: int, q: int, r: int)
    requires 0 <= r < MICROS_PER_DAY && x == q * MICROS_PER_DAY + r
    ensures x % MICROS_PER_DAY == r
  {
  }

  lemma Wrapped(x: int, t: int, start: int)
    requires t == x % MICROS_PER_DAY && 0 <= start < MICROS_PER_DAY
    ensures (x - start) % MICROS_PER_DAY == if t >= start then t - start else t - start + MICROS_PER_DAY
  {
    var q := x / MICROS_PER_DAY;
    assert x == q * MICROS_PER_DAY + t;
    if t >= start {
      DayRemainder(x - start, q, t - start);
    } else {
      DayRemainder(x - start, q - 1, t - start + MICROS_PER_DAY);
    }
  }

  /** Quiet hours run round the clock from their start: past midnight when they end before they
      begin, and never when both coincide. */
  lemma QuietHoursWrap(p: SpamPolicy, now: int)
    requires 0 <= p.quietFrom < MICROS_PER_DAY && 0 <= p.quietTo < MICROS_PER_DAY
    ensures InQuietHours(p, now) <==>
      (now - p.quietFrom) % MICROS_PER_DAY < (p.quietTo - p.quietFrom) % MICROS_PER_DAY
  {
    var t := now % MICROS_PER_DAY;
    Wrapped(now, t, p.quietFrom);
    Wrapped(p.quietTo, p.quietTo, p.quietFrom);
  }

  /** The row an accepted alert leaves behind. */
  function RowOf(deal: Deal, now: int): AlertRow {
    AlertRow(deal.fingerprint, deal.listing.Key(), deal.eurPerGb, deal.discount, deal.urgency,
             deal.listing.price, now, None, None)
  }

  /** "Ignore": every row of the fingerprint is silenced for 24 hours. */
  function MuteRows(alerts: seq<AlertRow>, fp: Fingerprint, at: int): (r: seq<AlertRow>)
    ensures |r| == |alerts|
  {
    seq(|alerts|, i requires 0 <= i < |alerts| =>
      if alerts[i].fingerprint == fp
      then alerts[i].(outcome := Some(Ignored), mutedUntil := Some(at + MUTE_MICROS))
      else alerts[i])
  }

  function BoughtRows(alerts: seq<AlertRow>, fp: Fingerprint): (r: seq<AlertRow>)
    ensures |r| == |alerts|
  {
    seq(|alerts|, i requires 0 <= i < |alerts| =>
      if alerts[i].fingerprint == fp then alerts[i].(outcome := Some(BoughtIt)) else alerts[i])
  }

  /** The mute end point: one update; touching no row answers 404. */
  method Mute(conn: Conn, fp: Fingerprint, now: int) returns (found: bool)
    modifies conn`alerts
    ensures conn.alerts == MuteRows(old(conn.alerts), fp, now)
    ensures found <==> exists i :: 0 <= i < |old(conn.alerts)| && old(conn.alerts)[i].fingerprint == fp
    ensures forall i :: 0 <= i < |conn.alerts| ==>
      (conn.alerts[i].fingerprint == fp ==> conn.alerts[i] == old(conn.alerts)[i].(outcome := Some(Ignored), mutedUntil := Some(now + 86_400_000_000)))
      && (conn.alerts[i].fingerprint != fp ==> conn.alerts[i] == old(conn.alerts)[i])
  {
    found := exists i :: 0 <= i < |conn.alerts| && conn.alerts[i].fingerprint == fp;
    conn.alerts := MuteRows(conn.alerts, fp, now);
  }

  /** The purchase end point: one update of the outcome; mutes and everything else stay. */
  method Bought(conn: Conn, fp: Fingerprint) returns (found: bool)
    modifies conn`alerts
    ensures conn.alerts == BoughtRows(old(conn.alerts), fp)
    ensures found <==> exists i :: 0 <= i < |old(conn.alerts)| && old(conn.alerts)[i].fingerprint == fp
    ensures forall i :: 0 <= i < |conn.alerts| ==>
      (conn.alerts[i].fingerprint == fp ==> conn.alerts[i] == old(conn.alerts)[i].(outcome := Some(BoughtIt)))
      && (conn.alerts[i].fingerprint != fp ==> conn.alerts[i] == old(conn.alerts)[i])
  {
    found := exists i :: 0 <= i < |conn.alerts| && conn.alerts[i].fingerprint == fp;
    conn.alerts := BoughtRows(conn.alerts, fp);
  }
}
