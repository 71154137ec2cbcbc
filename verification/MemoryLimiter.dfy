/** The in-memory limiter: a bucket object per client, refilled by a ticker. */
module MemoryLimiter {
  import opened Machine
  import opened RateLimit
  import opened Trace
  import TB = TickerBucket

  class TokenBucket {
    var tokens: int64
    const capacity: int64
    const refillRate: int64
    var lastRefill: int

    constructor (capacity: int64, refillRate: int64, now: int)
      ensures View() == TB.Bucket(capacity, capacity, refillRate, now)
    {
      this.tokens, this.capacity, this.refillRate, this.lastRefill := capacity, capacity, refillRate, now;
    }

    function View(): TB.Bucket
      reads this
    {
      TB.Bucket(tokens, capacity, refillRate, lastRefill)
    }

    /** The part of the refill loop that happens under the bucket's own lock. */
    method Refill(now: int)
      modifies this
      ensures View() == TB.Refill(old(View()), now)
    {
      var elapsed := now - lastRefill;
      var tokensToAdd := ToInt64(Credit(elapsed, refillRate));
      if tokensToAdd > 0 {
        tokens := Min(capacity, Add64(tokens, tokensToAdd));
        lastRefill := now;
      }
    }
  }

  class ClientState {
    const bucket: TokenBucket
    const settings: Settings

    constructor (bucket: TokenBucket, settings: Settings)
      ensures this.bucket == bucket && this.settings == settings
    {
      this.bucket, this.settings := bucket, settings;
    }
  }

  /** The limiter seen from outside: the bucket of every limited client. */
  type Buckets = map<string, TB.Bucket>

  function Taken(m: Buckets, client: string): Buckets {
    if client in m then m[client := TB.Take(m[client]).0] else m
  }

  /** A client without a limit is always let through. */
  predicate Allowed(m: Buckets, client: string) {
    client !in m || TB.Take(m[client]).1 == Admitted
  }

  /** One pass of the ticker; the clock is read anew for each client. */
  function Refilled(m: Buckets, clock: string -> int): Buckets {
    map c | c in m :: TB.Refill(m[c], clock(c))
  }

  class MemoryRateLimiter {
    var clients: map<string, ClientState>

    constructor ()
      ensures Valid() && View() == map[] && clients == map[]
    {
      clients := map[];
    }

    /** No two clients share a bucket. */
    ghost predicate Valid()
      reads this
    {
      forall c, d :: c in clients && d in clients && c != d ==> clients[c].bucket != clients[d].bucket
    }

    ghost function Objects(): set<TokenBucket>
      reads this
    {
      set c | c in clients :: clients[c].bucket
    }

    ghost function View(): Buckets
      reads this, Objects()
    {
      map c | c in clients :: clients[c].bucket.View()
    }

    method Allow(client: string) returns (ok: bool)
      requires Valid()
      modifies Objects()
      ensures Valid()
      ensures client !in clients ==> ok
      ensures client in clients ==>
        && (ok <==> old(clients[client].bucket.tokens) > 0)
        && clients[client].bucket.tokens == old(clients[client].bucket.tokens) - (if ok then 1 else 0)
      ensures ok <==> Allowed(old(View()), client)
      ensures View() == Taken(old(View()), client)
    {
      if client !in clients {
        return true;
      }
      var bucket := clients[client].bucket;
      if bucket.tokens > 0 {
        bucket.tokens := bucket.tokens - 1;
        return true;
      }
      return false;
    }

    /** A new, full bucket replaces whatever was there. */
    method SetRateLimit(client: string, settings: Settings, now: int)
      requires Valid()
      modifies this
      ensures Valid() && fresh(Objects() - old(Objects()))
      ensures View() == old(View())[client := TB.Bucket(settings.capacity, settings.capacity, settings.rate, now)]
    {
      var bucket := new TokenBucket(settings.capacity, settings.rate, now);
      var state := new ClientState(bucket, settings);
      clients := clients[client := state];
      assert forall c :: c in clients && c != client ==> clients[c].bucket.View() == old(clients[c].bucket.View());
    }

    method RemoveRateLimit(client: string)
      requires Valid()
      modifies this
      ensures Valid() && Objects() <= old(Objects())
      ensures View() == old(View()) - {client}
    {
      clients := clients - {client};
    }

    /** One pass of the refill loop, over the clients in any order. */
    method RefillAll(clock: string -> int)
      requires Valid()
      modifies Objects()
      ensures Valid()
      ensures View() == Refilled(old(View()), clock)
    {
      var todo := clients.Keys;
      while todo != {}
        invariant todo <= clients.Keys
        invariant forall c :: c in clients ==>
          clients[c].bucket.View() == if c in todo then old(View())[c] else TB.Refill(old(View())[c], clock(c))
        decreases todo
      {
        var client :| client in todo;
        clients[client].bucket.Refill(clock(client));
        todo := todo - {client};
      }
    }
  }
}
