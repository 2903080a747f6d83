/** The decision core of the `rateLimiter` middleware: a per-client pair of token
    buckets, one sustained ("minute") and one short-term ("burst").

    The middleware's module-level `clients` map becomes an explicit table passed in and
    returned, `Date.now()` becomes the parameter `now` (milliseconds), `req.ip` becomes
    an optional client identity, and the `429` response / `next()` call become a
    `Decision`. Token counts are exact reals. */
module RateLimiter {
  import opened Results

  /** `Bucket`: tokens on hand, the instant of the last refill, the most tokens it can
      hold, and the refill rate in tokens per millisecond. */
  datatype Bucket = Bucket(tokens: real, lastRefill: int, capacity: real, refillRate: real)

  /** The two buckets kept for each client. */
  datatype ClientBuckets = ClientBuckets(minute: Bucket, burst: Bucket)

  /** The `clients` table, keyed by client address. */
  type Clients = map<string, ClientBuckets>

  /** Allow: the request proceeds (`next()`); Deny: it is answered with status 429. */
  datatype Decision = Allow | Deny

  /** The middleware throws when the request carries no client address ("IP address is undefined"). */
  datatype RateError = IpUndefined

  /** Sustained bucket: 10 tokens, refilled at 10 per minute. */
  const MinuteCapacity: real := 10.0
  const MinuteRefillRate: real := 10.0 / 60000.0

  /** Burst bucket: 5 tokens, refilled at 5 per 10 seconds. */
  const BurstCapacity: real := 5.0
  const BurstRefillRate: real := 5.0 / 10000.0

  /** The buckets a client gets on first sight: both full, last refilled now. */
  function FullBuckets(now: int): (b: ClientBuckets)
    ensures b.minute.tokens == b.minute.capacity == MinuteCapacity
    ensures b.burst.tokens == b.burst.capacity == BurstCapacity
    ensures b.minute.refillRate == MinuteRefillRate && b.burst.refillRate == BurstRefillRate
    ensures b.minute.lastRefill == now && b.burst.lastRefill == now
  {
    ClientBuckets(
      Bucket(MinuteCapacity, now, MinuteCapacity, MinuteRefillRate),
      Bucket(BurstCapacity, now, BurstCapacity, BurstRefillRate))
  }

  /** `Math.min` on reals. */
  function Min(a: real, b: real): (r: real)
    ensures r <= a && r <= b
    ensures r == a || r == b
  {
    if a <= b then a else b
  }

  /** Continuous refill: add the tokens earned since the last refill, never beyond
      capacity, and record `now` as the new refill instant. */
  function Refill(b: Bucket, now: int): (r: Bucket)
    ensures r.lastRefill == now
    ensures r.capacity == b.capacity && r.refillRate == b.refillRate
    ensures r.tokens <= b.capacity
    ensures r.tokens <= b.tokens + (now - b.lastRefill) as real * b.refillRate
    ensures r.tokens == b.capacity || r.tokens == b.tokens + (now - b.lastRefill) as real * b.refillRate
  {
    var elapsed := now - b.lastRefill;
    b.(tokens := Min(b.capacity, b.tokens + elapsed as real * b.refillRate), lastRefill := now)
  }

  /** A client's buckets as the decision sees them before refilling: the stored pair, or a
      full pair created lazily for a client not seen before. */
  function Current(clients: Clients, id: string, now: int): ClientBuckets
  {
    if id in clients then clients[id] else FullBuckets(now)
  }

  /** One pass of the middleware for a request from `ip` at `now`. An undefined address is
      an error, not a decision. Otherwise the client's buckets are created if need be and
      both are refilled; the request is denied when either holds less than one token, and
      the refilled buckets are stored without consuming anything; otherwise one token is
      taken from each bucket. No other client's entry changes. */
  function Check(clients: Clients, ip: Option<string>, now: int): (r: Result<(Decision, Clients), RateError>)
    ensures r.Err? <==> ip.None?
    ensures r.Ok? ==> r.value.1.Keys == clients.Keys + {ip.value}
    ensures r.Ok? ==> forall other :: other in clients && other != ip.value ==> r.value.1[other] == clients[other]
    ensures r.Ok? ==>
      var m := Refill(Current(clients, ip.value, now).minute, now);
      var b := Refill(Current(clients, ip.value, now).burst, now);
      var after := r.value.1[ip.value];
      && (r.value.0 == Deny <==> m.tokens < 1.0 || b.tokens < 1.0)
      && (r.value.0 == Deny ==> after == ClientBuckets(m, b))
      && (r.value.0 == Allow ==>
            && after.minute.tokens == m.tokens - 1.0 && after.burst.tokens == b.tokens - 1.0
            && after.minute.lastRefill == now && after.burst.lastRefill == now
            && after.minute.capacity == m.capacity && after.burst.capacity == b.capacity
            && after.minute.refillRate == m.refillRate && after.burst.refillRate == b.refillRate)
  {
    match ip
    case None => Err(IpUndefined)
    case Some(id) =>
      var table := if id in clients then clients else clients[id := FullBuckets(now)];
      var client := table[id];
      var refilled := ClientBuckets(Refill(client.minute, now), Refill(client.burst, now));
      if refilled.minute.tokens < 1.0 || refilled.burst.tokens < 1.0 then
        Ok((Deny, table[id := refilled]))
      else
        var spent := ClientBuckets(
          refilled.minute.(tokens := refilled.minute.tokens - 1.0),
          refilled.burst.(tokens := refilled.burst.tokens - 1.0));
        Ok((Allow, table[id := spent]))
  }
}
