/** Properties of the rate-limiter decision: token bounds, first sight of a client,
    the burst limit, recovery after waiting, and the stability of a denial. */
module RateLimiterProperties {
  import opened Results
  import opened RateLimiter

  /** A bucket in a sane state at `now`: tokens between zero and capacity, a refill rate
      that does not drain, and a last refill not in the future. */
  predicate BucketOk(b: Bucket, now: int)
  {
    0.0 <= b.tokens <= b.capacity && 0.0 <= b.refillRate && b.lastRefill <= now
  }

  /** Every client's two buckets are sane at `now`. */
  predicate TableOk(clients: Clients, now: int)
  {
    forall id :: id in clients ==> BucketOk(clients[id].minute, now) && BucketOk(clients[id].burst, now)
  }

  /** Refilling a sane bucket never loses tokens and stays within capacity. */
  lemma RefillKeepsBounds(b: Bucket, now: int)
    requires BucketOk(b, now)
    ensures BucketOk(Refill(b, now), now)
    ensures b.tokens <= Refill(b, now).tokens
  {
    var elapsed := (now - b.lastRefill) as real;
    assert 0.0 <= elapsed * b.refillRate by {
      assert 0.0 <= elapsed;
    }
  }

  /** With time not running backwards, `check` keeps every bucket of every client between
      zero and its capacity: a denial only refills, and an allow spends a token only from a
      bucket holding at least one. */
  lemma CheckKeepsTokenBounds(clients: Clients, ip: string, now: int)
    requires TableOk(clients, now)
    ensures TableOk(Check(clients, Some(ip), now).value.1, now)
  {
    var cur := Current(clients, ip, now);
    assert BucketOk(cur.minute, now) && BucketOk(cur.burst, now);
    RefillKeepsBounds(cur.minute, now);
    RefillKeepsBounds(cur.burst, now);
  }

  /** An undefined client address is an error: it is neither allowed nor denied. */
  lemma UndefinedIpIsError(clients: Clients, now: int)
    ensures Check(clients, None, now) == Err(IpUndefined)
  {
  }

  /** A client's first request finds two full buckets, is allowed, and leaves 9 sustained
      and 4 burst tokens behind. */
  lemma FirstRequestAllowed(clients: Clients, ip: string, now: int)
    requires ip !in clients
    ensures Check(clients, Some(ip), now) == Ok((Allow, clients[ip := Spent(now, 1)]))
  {
    var full := FullBuckets(now);
    assert Refill(full.minute, now) == full.minute;
    assert Refill(full.burst, now) == full.burst;
    var spent := ClientBuckets(
      full.minute.(tokens := full.minute.tokens - 1.0),
      full.burst.(tokens := full.burst.tokens - 1.0));
    assert spent == Spent(now, 1);
    assert clients[ip := full][ip := spent] == clients[ip := Spent(now, 1)];
  }

  /** The buckets of a new client after `n` requests at its first instant. */
  function Spent(now: int, n: nat): (b: ClientBuckets)
    requires n <= 5
    ensures b.burst.tokens == BurstCapacity - n as real
    ensures b.minute.tokens == MinuteCapacity - n as real
  {
    ClientBuckets(
      Bucket(MinuteCapacity - n as real, now, MinuteCapacity, MinuteRefillRate),
      Bucket(BurstCapacity - n as real, now, BurstCapacity, BurstRefillRate))
  }

  /** `n` requests from `ip`, all at instant `now`: the decisions in order and the final table. */
  function CheckRepeatedly(clients: Clients, ip: string, now: int, n: nat): (r: (seq<Decision>, Clients))
    ensures |r.0| == n
    ensures r.1.Keys == if n == 0 then clients.Keys else clients.Keys + {ip}
  {
    if n == 0 then ([], clients)
    else
      var previous := CheckRepeatedly(clients, ip, now, n - 1);
      var step := Check(previous.1, Some(ip), now);
      (previous.0 + [step.value.0], step.value.1)
  }

  /** A request at the same instant as the last refill, with a token in each bucket, is
      allowed and spends one from each. */
  lemma AllowedAtSameInstant(clients: Clients, ip: string, now: int, n: nat)
    requires 1 <= n < 5
    requires ip in clients && clients[ip] == Spent(now, n)
    ensures Check(clients, Some(ip), now) == Ok((Allow, clients[ip := Spent(now, n + 1)]))
  {
    var cur := clients[ip];
    assert Refill(cur.minute, now) == cur.minute;
    assert Refill(cur.burst, now) == cur.burst;
  }

  /** A new client's first five requests at one instant are all allowed, each spending one
      token from both buckets. */
  lemma {:induction false} BurstAllowed(clients: Clients, ip: string, now: int, n: nat)
    requires ip !in clients
    requires 1 <= n <= 5
    ensures CheckRepeatedly(clients, ip, now, n) == (seq(n, _ => Allow), clients[ip := Spent(now, n)])
  {
    if n == 1 {
      FirstRequestAllowed(clients, ip, now);
      var step := Check(clients, Some(ip), now);
      assert CheckRepeatedly(clients, ip, now, 0) == ([], clients);
      assert CheckRepeatedly(clients, ip, now, 1) == ([] + [step.value.0], step.value.1);
      assert [] + [Allow] == seq(1, _ => Allow);
    } else {
      BurstAllowed(clients, ip, now, n - 1);
      BurstStep(clients, ip, now, n);
    }
  }

  /** One more request of the burst, given the first `n - 1`. */
  lemma BurstStep(clients: Clients, ip: string, now: int, n: nat)
    requires 2 <= n <= 5
    requires CheckRepeatedly(clients, ip, now, n - 1) == (seq(n - 1, _ => Allow), clients[ip := Spent(now, n - 1)])
    ensures CheckRepeatedly(clients, ip, now, n) == (seq(n, _ => Allow), clients[ip := Spent(now, n)])
  {
    var previous := CheckRepeatedly(clients, ip, now, n - 1);
    AllowedAtSameInstant(previous.1, ip, now, n - 1);
    assert previous.1[ip := Spent(now, n)] == clients[ip := Spent(now, n)];
    assert seq(n - 1, _ => Allow) + [Allow] == seq(n, _ => Allow);
  }

  /** The sixth request of a new client at one instant is denied: the burst bucket is empty
      although the sustained one still holds five tokens. */
  lemma SixthRequestDenied(clients: Clients, ip: string, now: int)
    requires ip !in clients
    ensures CheckRepeatedly(clients, ip, now, 6).0 == [Allow, Allow, Allow, Allow, Allow, Deny]
    ensures CheckRepeatedly(clients, ip, now, 6).1 == clients[ip := Spent(now, 5)]
  {
    BurstAllowed(clients, ip, now, 5);
    var five := CheckRepeatedly(clients, ip, now, 5);
    var cur := five.1[ip];
    assert Refill(cur.minute, now) == cur.minute;
    assert Refill(cur.burst, now) == cur.burst;
    assert five.1[ip := cur] == five.1;
  }

  /** Ten seconds after exhausting the burst, the burst bucket is full again and the next
      request is allowed. */
  lemma RecoversAfterBurstInterval(clients: Clients, ip: string, now: int)
    requires ip !in clients
    ensures var later := Check(CheckRepeatedly(clients, ip, now, 5).1, Some(ip), now + 10000);
      && later.value.0 == Allow
      && later.value.1[ip].burst.tokens == BurstCapacity - 1.0
  {
    BurstAllowed(clients, ip, now, 5);
    var cur := Spent(now, 5);
    assert Refill(cur.burst, now + 10000).tokens == BurstCapacity;
    assert Refill(cur.minute, now + 10000).tokens == MinuteCapacity - 5.0 + 10000.0 * MinuteRefillRate;
  }

  /** A denial is stable at one instant: asking again at the same `now` is denied again and
      changes nothing. */
  lemma DenyIsStable(clients: Clients, ip: string, now: int)
    requires Check(clients, Some(ip), now).value.0 == Deny
    ensures var once := Check(clients, Some(ip), now).value.1;
      Check(once, Some(ip), now) == Ok((Deny, once))
  {
    var once := Check(clients, Some(ip), now).value.1;
    var cur := once[ip];
    assert Refill(cur.minute, now) == cur.minute;
    assert Refill(cur.burst, now) == cur.burst;
    assert once[ip := cur] == once;
  }
}
