/** The hybrid limiter: settings rows in PostgreSQL, their copies and the token keys in one Redis. */
module HybridLimiter {
  import opened Machine
  import opened RateLimit
  import opened HybridStore
  import SettingsCache

  /** What an update of one account writes, key by key. */
  lemma UpdateByKeys(s: Store, client: string, acc: Account)
    ensures var was, after := View(s, client), Update(s, client, acc);
      && (acc.row == was.row ==> after.rows == s.rows)
      && (acc.tokens == was.tokens && acc.last == was.last ==>
            after.redis == Put(s.redis, SettingsKey(client), acc.copy))
      && (acc.copy == was.copy ==>
            after.redis == Put(Put(s.redis, TokensKey(client), acc.tokens), LastRefillKey(client), acc.last))
      && (acc == was.(row := acc.row) ==> after.redis == s.redis)
      && (acc == Account(acc.row, None, None, None) ==>
            after.redis == s.redis - {SettingsKey(client), TokensKey(client), LastRefillKey(client)})
  {
    OwnKeysDiffer(client);
  }

  /** Copies of other clients, and all accounts with other keys, are out of reach. */
  lemma DoIsContained(s: Store, op: Op)
    ensures forall now :: Coherent(s, now) ==>
      (Coherent(Do(s, op).0, now) <==> Harmless(View(s, op.client), op, now))
    ensures forall b :: b != op.client && Apart(op.client, b) ==> View(Do(s, op).0, b) == View(s, b)
  {
    forall now | Coherent(s, now) ensures Coherent(Do(s, op).0, now) <==> Harmless(View(s, op.client), op, now) {
      CoherenceKeptExactly(s, op, now);
    }
    forall b | b != op.client && Apart(op.client, b) ensures View(Do(s, op).0, b) == View(s, b) {
      OthersKeepTheirAccount(s, op.client, Serve(View(s, op.client), op).0, b);
    }
  }

  lemma LookupIsCoherent(s: Store, client: string, now: int, reached: bool, stored: bool)
    ensures var after := Update(s, client, LookedUp(View(s, client), now, reached, stored));
      forall at :: Coherent(s, at) ==> Coherent(after, at)
    ensures Coherent(s, now) ==> Effective(View(s, client), now, reached) == At(s.rows, client)
  {
    var acc := LookedUp(View(s, client), now, reached, stored);
    forall at | Coherent(s, at) ensures Coherent(Update(s, client, acc), at) {
      assert Current(View(s, client), at);
      CoherentUpdate(s, client, acc, at);
    }
    if Coherent(s, now) {
      assert Current(View(s, client), now);
    }
  }

  class HybridRateLimiter {
    var rows: map<string, Settings>
    var redis: map<string, Value>

    constructor ()
      ensures Contents() == EMPTY
    {
      rows, redis := map[], map[];
    }

    /** Both databases as a value. */
    function Contents(): Store
      reads this
    {
      Store(rows, redis)
    }

    /** A Redis GET: expired copies are gone. */
    function Get(key: string, now: int): Option<Value>
      reads this
    {
      Live(At(redis, key), now)
    }

    method GetSettings(client: string, now: int, reached: bool, stored: bool) returns (r: Option<Settings>)
      modifies this`redis
      ensures var acc := old(View(Contents(), client));
        && r == Effective(acc, now, reached)
        && Contents() == Update(old(Contents()), client, LookedUp(acc, now, reached, stored))
      ensures forall at :: old(Coherent(Contents(), at)) ==> Coherent(Contents(), at)
      ensures old(Coherent(Contents(), now)) ==> r == At(rows, client)
    {
      ghost var before := Contents();
      UpdateByKeys(before, client, LookedUp(View(before, client), now, reached, stored));
      LookupIsCoherent(before, client, now, reached, stored);
      if reached {
        var cached := Get(SettingsKey(client), now);
        if cached.Some? && cached.value.Json? {
          return Some(cached.value.settings);
        }
      }
      if client !in rows {
        return None;
      }
      r := Some(rows[client]);
      if stored {
        redis := redis[SettingsKey(client) := Json(rows[client], now + SettingsCache.HOUR)];
      }
    }

    /** The script; it fails, before it writes anything, where it would compute with nil. */
    method EvaluateScript(client: string, c: Settings, now: int) returns (allowed: bool)
      modifies this`redis
      ensures var (acc, verdict) := Evaluated(old(View(Contents(), client)), c, now);
        Contents() == Update(old(Contents()), client, acc) && allowed == verdict
      ensures old(ScriptFails(Get(TokensKey(client), now), Get(LastRefillKey(client), now))) ==>
        allowed && redis == old(redis)
    {
      ghost var before := Contents();
      UpdateByKeys(before, client, Evaluated(View(before, client), c, now).0);
      var storedTokens, storedLast := Get(TokensKey(client), now), Get(LastRefillKey(client), now);
      var tokens, lastRefill := c.capacity as int, now;
      if storedTokens.Some? {
        if ToNumber(storedTokens).None? || ToNumber(storedLast).None? {
          return true;
        }
        tokens, lastRefill := ToNumber(storedTokens).value, ToNumber(storedLast).value;
      }
      var elapsed := now - lastRefill;
      tokens := Min(c.capacity, tokens + elapsed * c.rate);
      if tokens > 0 {
        tokens := tokens - 1;
        redis := redis[TokensKey(client) := Number(tokens)][LastRefillKey(client) := Number(now)];
        return true;
      }
      return false;
    }

    /** Settings first, then the script; without settings it dereferences nil. */
    method Allow(client: string, now: int, reached: bool, stored: bool) returns (outcome: Outcome)
      modifies this`redis
      ensures (Contents(), outcome) == Do(old(Contents()), Op.Allow(client, now, reached, stored))
      ensures outcome == Crash <==> old(Effective(View(Contents(), client), now, reached)).None?
      ensures forall at :: old(Coherent(Contents(), at)) ==> Coherent(Contents(), at)
      ensures forall b :: b != client && Apart(client, b) ==> View(Contents(), b) == old(View(Contents(), b))
    {
      ghost var before := Contents();
      ghost var acc := View(before, client);
      ghost var seen := LookedUp(acc, now, reached, stored);
      DoIsContained(before, Op.Allow(client, now, reached, stored));
      var settings := GetSettings(client, now, reached, stored);
      if settings.None? {
        return Crash;
      }
      ViewOfUpdate(before, client, seen);
      UpdateTwice(before, client, seen, Evaluated(seen, settings.value, now).0);
      var allowed := EvaluateScript(client, settings.value, now);
      outcome := Decided(allowed);
    }

    /** `saved` says whether the SQL upsert succeeds, `dropped` whether the best-effort delete of the copy arrives.
        At every time, the copies that Redis holds stay equal to rows exactly if nothing was saved, or the delete
        arrived, or Redis held no copy, or the copy already said the same. */
    method SetRateLimit(client: string, settings: Settings, saved: bool, dropped: bool) returns (ok: bool)
      modifies this
      ensures (Contents(), Returned(ok)) == Do(old(Contents()), Op.SetRateLimit(client, settings, saved, dropped))
      ensures ok == saved
      ensures rows == if saved then old(rows)[client := settings] else old(rows)
      ensures redis == if saved && dropped then old(redis) - {SettingsKey(client)} else old(redis)
      ensures forall now :: old(Coherent(Contents(), now)) ==>
        (Coherent(Contents(), now)
         <==> Harmless(old(View(Contents(), client)), Op.SetRateLimit(client, settings, saved, dropped), now))
      ensures forall b :: b != client && Apart(client, b) ==> View(Contents(), b) == old(View(Contents(), b))
    {
      ghost var before, op := Contents(), Op.SetRateLimit(client, settings, saved, dropped);
      DoIsContained(before, op);
      UpdateByKeys(before, client, Serve(View(before, client), op).0);
      if !saved {
        return false;
      }
      rows := rows[client := settings];
      if dropped {
        redis := redis - {SettingsKey(client)};
      }
      return true;
    }

    /** `deleted` and `dropped` say whether the SQL delete and the Redis delete succeed; both are always attempted,
        and the three Redis keys go together. */
    method RemoveRateLimit(client: string, deleted: bool, dropped: bool) returns (ok: bool)
      modifies this
      ensures (Contents(), Returned(ok)) == Do(old(Contents()), Op.RemoveRateLimit(client, deleted, dropped))
      ensures ok <==> deleted && dropped
      ensures rows == if deleted then old(rows) - {client} else old(rows)
      ensures redis == if dropped
        then old(redis) - {SettingsKey(client), TokensKey(client), LastRefillKey(client)} else old(redis)
      ensures forall now :: old(Coherent(Contents(), now)) ==>
        (Coherent(Contents(), now)
         <==> Harmless(old(View(Contents(), client)), Op.RemoveRateLimit(client, deleted, dropped), now))
      ensures forall b :: b != client && Apart(client, b) ==> View(Contents(), b) == old(View(Contents(), b))
    {
      ghost var before, op := Contents(), Op.RemoveRateLimit(client, deleted, dropped);
      DoIsContained(before, op);
      UpdateByKeys(before, client, Serve(View(before, client), op).0);
      if deleted {
        rows := rows - {client};
      }
      if dropped {
        redis := redis - {SettingsKey(client), TokensKey(client), LastRefillKey(client)};
      }
      ok := deleted && dropped;
    }
  }
}
